/** The block list of the kernel heap (kernel.c) as a value.

    A heap is the sequence of its blocks in address order.  Block headers take twelve
    bytes; a block's address is the extent of the blocks before it. */
module HeapModel {

  const NIL := -1
  const HEADER := 12
  const HEAP_SIZE := 4 * 1024 * 1024
  const TWO32 := 0x1_0000_0000

  datatype Block = Block(free: bool, size: nat)

  /** Bytes that a list of blocks occupies, headers included. */
  function Extent(bs: seq<Block>): nat {
    if bs == [] then 0 else HEADER + bs[0].size + Extent(bs[1..])
  }

  /** (size + 7) & ~7 in 32-bit arithmetic. */
  function Rounded(size: nat): nat {
    var s := (size + 7) % 0x1_0000_0000;
    s - s % 8
  }

  /** Index of the first free block of at least the given size, or the number of blocks. */
  function FirstFit(bs: seq<Block>, size: nat): (i: nat)
    ensures i <= |bs|
    ensures i < |bs| ==> bs[i].free && size <= bs[i].size
    ensures forall j :: 0 <= j < i ==> !(bs[j].free && size <= bs[j].size)
  {
    if bs == [] || (bs[0].free && size <= bs[0].size) then 0 else 1 + FirstFit(bs[1..], size)
  }

  /** What becomes of a free block that serves a request of `size` bytes. */
  function Carved(b: Block, size: nat): seq<Block> {
    if b.size > size + HEADER then [Block(false, size), Block(true, b.size - size - HEADER)]
    else [Block(false, b.size)]
  }

  function AllocAt(bs: seq<Block>, i: nat, size: nat): seq<Block>
    requires i < |bs|
  {
    bs[..i] + Carved(bs[i], size) + bs[i + 1..]
  }

  /** kmalloc: the new list and the payload address, or no address. */
  function Kmalloc(bs: seq<Block>, request: nat): (seq<Block>, int) {
    var i := FirstFit(bs, Rounded(request));
    if request == 0 || i == |bs| then (bs, NIL)
    else (AllocAt(bs, i, Rounded(request)), Extent(bs[..i]) + HEADER)
  }

  /** The size of the payload that a successful kmalloc returns. */
  function GrantSize(bs: seq<Block>, request: nat): nat
    requires Kmalloc(bs, request).1 != NIL
  {
    Carved(bs[FirstFit(bs, Rounded(request))], Rounded(request))[0].size
  }

  /** The single coalescing pass of kfree: a merged block is not looked at again. */
  function Pass(bs: seq<Block>): seq<Block> {
    if |bs| < 2 then bs
    else if bs[0].free && bs[1].free then [Block(true, bs[0].size + HEADER + bs[1].size)] + Pass(bs[2..])
    else [bs[0]] + Pass(bs[1..])
  }

  function Released(bs: seq<Block>, i: nat): seq<Block>
    requires i < |bs|
  {
    bs[i := bs[i].(free := true)]
  }

  /** kfree of the block at index `i`. */
  function Kfree(bs: seq<Block>, i: nat): seq<Block>
    requires i < |bs|
  {
    Pass(Released(bs, i))
  }

  /** The list after memory_init. */
  function Initial(): seq<Block> {
    [Block(true, HEAP_SIZE - HEADER)]
  }

  // ---------------------------------------------------------------- tiling

  lemma {:induction false} ExtentConcat(a: seq<Block>, b: seq<Block>)
    ensures Extent(a + b) == Extent(a) + Extent(b)
  {
    if a == [] {
      assert a + b == b;
    } else {
      assert (a + b)[1..] == a[1..] + b;
      ExtentConcat(a[1..], b);
    }
  }

  lemma {:induction false} ExtentSplit(bs: seq<Block>, i: nat)
    requires i < |bs|
    ensures Extent(bs) == Extent(bs[..i]) + HEADER + bs[i].size + Extent(bs[i + 1..])
    ensures Extent(bs[..i + 1]) == Extent(bs[..i]) + HEADER + bs[i].size
  {
    assert bs == bs[..i] + [bs[i]] + bs[i + 1..];
    assert bs[..i + 1] == bs[..i] + [bs[i]];
    ExtentConcat(bs[..i], [bs[i]]);
    ExtentConcat(bs[..i] + [bs[i]], bs[i + 1..]);
    assert Extent([bs[i]]) == HEADER + bs[i].size;
  }

  lemma {:induction false} CarvedExtent(b: Block, size: nat)
    requires size <= b.size
    ensures Extent(Carved(b, size)) == HEADER + b.size
  {
    if b.size > size + HEADER {
      var c := Carved(b, size);
      assert c[1..] == [c[1]] && [c[1]][1..] == [];
      assert Extent([c[1]]) == HEADER + c[1].size;
    }
  }

  lemma {:induction false} AllocExtent(bs: seq<Block>, i: nat, size: nat)
    requires i < |bs| && size <= bs[i].size
    ensures Extent(AllocAt(bs, i, size)) == Extent(bs)
  {
    ExtentSplit(bs, i);
    CarvedExtent(bs[i], size);
    ExtentConcat(bs[..i], Carved(bs[i], size));
    ExtentConcat(bs[..i] + Carved(bs[i], size), bs[i + 1..]);
  }

  lemma {:induction false} PassExtent(bs: seq<Block>)
    ensures Extent(Pass(bs)) == Extent(bs)
    decreases |bs|
  {
    if |bs| >= 2 {
      if bs[0].free && bs[1].free {
        PassExtent(bs[2..]);
        assert bs[1..][1..] == bs[2..];
      } else {
        PassExtent(bs[1..]);
      }
    }
  }

  lemma {:induction false} ReleasedExtent(bs: seq<Block>, i: nat)
    requires i < |bs|
    ensures Extent(Released(bs, i)) == Extent(bs)
  {
    if i > 0 {
      assert Released(bs, i)[1..] == Released(bs[1..], i - 1);
      ReleasedExtent(bs[1..], i - 1);
    } else {
      assert Released(bs, i)[1..] == bs[1..];
    }
  }

  // ---------------------------------------------------------------- alignment

  predicate WordSized(bs: seq<Block>) {
    forall i :: 0 <= i < |bs| ==> bs[i].size % 4 == 0
  }

  lemma {:induction false} ExtentAligned(bs: seq<Block>)
    requires WordSized(bs)
    ensures Extent(bs) % 4 == 0
  {
    if bs != [] {
      ExtentAligned(bs[1..]);
      Multiples(bs[0].size, Extent(bs[1..]));
    }
  }

  lemma {:induction false} Multiples(a: nat, b: nat)
    requires a % 4 == 0 && b % 4 == 0
    ensures (HEADER + a + b) % 4 == 0
  {
  }

  lemma {:induction false} PassAligned(bs: seq<Block>)
    requires WordSized(bs)
    ensures WordSized(Pass(bs))
    decreases |bs|
  {
    if |bs| >= 2 {
      if bs[0].free && bs[1].free {
        Multiples(bs[0].size, bs[1].size);
        PassAligned(bs[2..]);
      } else { PassAligned(bs[1..]); }
    }
  }

  /** How many blocks have a size that is a multiple of eight. */
  function EightSized(bs: seq<Block>): nat {
    if bs == [] then 0 else (if bs[0].size % 8 == 0 then 1 else 0) + EightSized(bs[1..])
  }

  lemma {:induction false} ExtentMod8(bs: seq<Block>)
    requires WordSized(bs)
    ensures Extent(bs) % 8 == if EightSized(bs) % 2 == 0 then 0 else 4
  {
    if bs != [] {
      var e, m := Extent(bs[1..]), EightSized(bs[1..]);
      ExtentMod8(bs[1..]);
      Parity(m);
      ExtentAligned(bs[1..]);
      Mod8(bs[0].size, e);
      assert Extent(bs) == HEADER + bs[0].size + e;
      assert EightSized(bs) == if bs[0].size % 8 == 0 then m + 1 else m;
    }
  }

  lemma {:induction false} Parity(m: nat)
    ensures (m + 1) % 2 == 1 - m % 2
  {
  }

  lemma {:induction false} FourTimes(m: nat)
    ensures (4 * m) % 4 == 0 && (4 * m) % 8 == if m % 2 == 0 then 0 else 4
  {
    var q := m / 2;
    assert 4 * m == 8 * q + 4 * (m % 2);
  }

  lemma {:induction false} Mod8(a: nat, b: nat)
    requires a % 4 == 0 && b % 4 == 0
    ensures (HEADER + a + b) % 8 == if (a % 8 == 0) == (b % 8 == 0) then 4 else 0
  {
    var x, y := a / 4, b / 4;
    FourTimes(x);
    FourTimes(y);
    FourTimes(3 + x + y);
    assert a == 4 * x && b == 4 * y && HEADER + a + b == 4 * (3 + x + y);
  }

  /** A payload is aligned to eight bytes exactly when an odd number of the blocks before it
      have a size that is a multiple of eight; the first one, at offset 12, is not. */
  lemma {:induction false} AlignedIff(bs: seq<Block>, request: nat)
    requires WordSized(bs) && Kmalloc(bs, request).1 != NIL
    ensures Kmalloc(bs, request).1 % 4 == 0
    ensures Kmalloc(bs, request).1 % 8 == 0 <==> EightSized(bs[..FirstFit(bs, Rounded(request))]) % 2 == 1
    ensures FirstFit(bs, Rounded(request)) == 0 ==> Kmalloc(bs, request).1 == 12
  {
    hide Rounded, Extent, EightSized;
    AlignedAt(bs[..FirstFit(bs, Rounded(request))]);
  }

  lemma {:induction false} AlignedAt(before: seq<Block>)
    requires WordSized(before)
    ensures (Extent(before) + HEADER) % 4 == 0 && (before == [] ==> Extent(before) + HEADER == 12)
    ensures (Extent(before) + HEADER) % 8 == 0 <==> EightSized(before) % 2 == 1
  {
    ExtentMod8(before);
    assert Extent([]) == 0;
    Plus12(Extent(before));
    hide Extent;
  }

  lemma {:induction false} Plus12(e: nat)
    requires e % 8 == 0 || e % 8 == 4
    ensures (e + 12) % 4 == 0 && ((e + 12) % 8 == 0 <==> e % 8 == 4)
  {
    var q := e / 8;
    if e % 8 == 0 {
      FourTimes(2 * q + 3);
      assert e + 12 == 4 * (2 * q + 3);
    } else {
      FourTimes(2 * q + 4);
      assert e + 12 == 4 * (2 * q + 4);
    }
  }

  // ---------------------------------------------------------------- fragmentation

  /** Number of adjacent pairs of free blocks. */
  function FreePairs(bs: seq<Block>): nat {
    if |bs| < 2 then 0
    else (if bs[0].free && bs[1].free then 1 else 0) + FreePairs(bs[1..])
  }

  /** One pass at least halves the number of adjacent free pairs. */
  lemma {:induction false} PassHalves(bs: seq<Block>)
    ensures 2 * FreePairs(Pass(bs)) <= FreePairs(bs)
    ensures bs != [] ==> Pass(bs) != [] && Pass(bs)[0].free == bs[0].free
    decreases |bs|
  {
    if |bs| >= 2 {
      if bs[0].free && bs[1].free {
        var r := Pass(bs[2..]);
        PassHalves(bs[2..]);
        assert bs[1..][1..] == bs[2..];
        assert Pass(bs)[1..] == r;
      } else {
        var r := Pass(bs[1..]);
        PassHalves(bs[1..]);
        assert Pass(bs)[1..] == r;
      }
    }
  }

  /** Freeing one block makes at most two new adjacent pairs. */
  lemma {:induction false} ReleasedPairs(bs: seq<Block>, i: nat)
    requires i < |bs|
    ensures FreePairs(Released(bs, i)) <= FreePairs(bs) + if i == 0 then 1 else 2
  {
    if i == 0 {
      assert Released(bs, i)[1..] == bs[1..];
    } else {
      assert Released(bs, i)[1..] == Released(bs[1..], i - 1);
      ReleasedPairs(bs[1..], i - 1);
    }
  }

  lemma {:induction false} AllocTail(bs: seq<Block>, i: nat, size: nat)
    requires 0 < i < |bs| && size <= bs[i].size
    ensures AllocAt(bs, i, size)[1..] == AllocAt(bs[1..], i - 1, size) && AllocAt(bs, i, size)[0] == bs[0]
  {
    var c := Carved(bs[i], size);
    assert bs[1..][..i - 1] == bs[..i][1..] && bs[1..][i - 1 + 1..] == bs[i + 1..] && bs[1..][i - 1] == bs[i];
    assert (bs[..i] + c + bs[i + 1..])[1..] == bs[..i][1..] + c + bs[i + 1..];
  }

  /** Serving a request makes no new adjacent pair. */
  lemma {:induction false} AllocPairs(bs: seq<Block>, i: nat, size: nat)
    requires i < |bs| && bs[i].free && size <= bs[i].size
    ensures FreePairs(AllocAt(bs, i, size)) <= FreePairs(bs)
  {
    var r := AllocAt(bs, i, size);
    if i > 0 { AllocTail(bs, i, size); }
    if i == 0 {
      if bs[0].size > size + HEADER {
        assert r[1..] == [r[1]] + bs[1..];
        assert r[1..][1..] == bs[1..];
      } else {
        assert r[1..] == bs[1..];
      }
    } else {
      AllocPairs(bs[1..], i - 1, size);
    }
  }

  /** At most one adjacent pair means no three free blocks in a row. */
  lemma {:induction false} NoTriple(bs: seq<Block>, i: nat)
    requires i + 2 < |bs| && bs[i].free && bs[i + 1].free && bs[i + 2].free
    ensures FreePairs(bs) >= 2
  {
    if i == 0 {
      assert bs[1..][1] == bs[2];
      assert FreePairs(bs[1..]) >= 1;
    } else {
      NoTriple(bs[1..], i - 1);
    }
  }

  /** Three free blocks in a row, somewhere. */
  predicate HasTriple(bs: seq<Block>) {
    |bs| >= 3 && ((bs[0].free && bs[1].free && bs[2].free) || HasTriple(bs[1..]))
  }

  /** The pass coalesces completely exactly when no three free blocks stand in a row. */
  lemma {:induction false} PassCompleteIff(bs: seq<Block>)
    ensures FreePairs(Pass(bs)) == 0 <==> !HasTriple(bs)
    decreases |bs|
  {
    if |bs| >= 2 {
      if bs[0].free && bs[1].free {
        assert bs[1..][1..] == bs[2..];
        PassCompleteIff(bs[2..]);
        PassHalves(bs[2..]);
        assert Pass(bs)[1..] == Pass(bs[2..]);
      } else {
        PassCompleteIff(bs[1..]);
        PassHalves(bs[1..]);
        assert Pass(bs)[1..] == Pass(bs[1..]);
      }
    }
  }

  /** Freeing the block between two free ones leaves an adjacent free pair behind. */
  lemma {:induction false} PassIncomplete(a: nat, b: nat, c: nat)
    ensures var r := Kfree([Block(true, a), Block(false, b), Block(true, c)], 1);
      r == [Block(true, a + HEADER + b), Block(true, c)] && FreePairs(r) == 1
  {
    var s := [Block(true, a), Block(true, b), Block(true, c)];
    assert Released([Block(true, a), Block(false, b), Block(true, c)], 1) == s;
    assert s[2..] == [Block(true, c)];
    assert Pass(s[2..]) == s[2..];
  }

  /** A run that gets there: with nothing live any more, the heap is in two blocks. */
  lemma {:induction false} IncompleteRun()
    ensures var bs := Run([OpAlloc(8), OpAlloc(8), OpFree(0), OpFree(1)]);
      bs == [Block(true, 28), Block(true, HEAP_SIZE - 52)] && FreePairs(bs) == 1
  {
    var a, f, g := OpAlloc(8), OpFree(0), OpFree(1);
    RunOfTwo();
    FirstFreed(HEAP_SIZE - 52);
    PassIncomplete(8, 8, HEAP_SIZE - 52);
    hide Run, Kfree;
    RunSnoc([a, a], f);
    assert [a, a] + [f] == [a, a, f];
    RunSnoc([a, a, f], g);
    assert [a, a, f] + [g] == [a, a, f, g];
  }

  lemma {:induction false} RunOfTwo()
    ensures Run([OpAlloc(8), OpAlloc(8)]) == [Block(false, 8), Block(false, 8), Block(true, HEAP_SIZE - 52)]
  {
    var a := OpAlloc(8);
    OneAllocated();
    TwoAllocated(HEAP_SIZE - 52);
    assert Run([]) == Initial();
    hide Run, Kmalloc, Initial;
    RunSnoc([], a);
    assert [] + [a] == [a];
    RunSnoc([a], a);
    assert [a] + [a] == [a, a];
  }

  lemma {:induction false} RunSnoc(ops: seq<Op>, op: Op)
    ensures Run(ops + [op]) == Step(Run(ops), op)
  {
    assert (ops + [op])[..|ops|] == ops;
  }

  lemma {:induction false} OneAllocated()
    ensures Kmalloc(Initial(), 8).0 == [Block(false, 8), Block(true, HEAP_SIZE - 32)]
  {
    assert FirstFit(Initial(), 8) == 0;
    assert Initial()[..0] == [] && Initial()[1..] == [];
  }

  lemma {:induction false} TwoAllocated(rest: nat)
    requires rest == HEAP_SIZE - 52
    ensures Kmalloc([Block(false, 8), Block(true, HEAP_SIZE - 32)], 8).0 == [Block(false, 8), Block(false, 8), Block(true, rest)]
  {
    var bs := [Block(false, 8), Block(true, HEAP_SIZE - 32)];
    assert bs[1..][0] == bs[1];
    assert FirstFit(bs, 8) == 1;
    assert bs[..1] == [Block(false, 8)] && bs[2..] == [];
  }

  lemma {:induction false} FirstFreed(rest: nat)
    ensures Kfree([Block(false, 8), Block(false, 8), Block(true, rest)], 0) == [Block(true, 8), Block(false, 8), Block(true, rest)]
  {
    var x, y, z := Block(true, 8), Block(false, 8), Block(true, rest);
    assert Released([Block(false, 8), y, z], 0) == [x, y, z];
    assert [x, y, z][1..] == [y, z] && [y, z][1..] == [z];
    assert Pass([z]) == [z];
    assert Pass([y, z]) == [y] + Pass([z]);
    assert Pass([x, y, z]) == [x] + Pass([y, z]);
  }

  predicate AllFree(bs: seq<Block>) {
    forall i :: 0 <= i < |bs| ==> bs[i].free
  }

  lemma {:induction false} AllFreePairs(bs: seq<Block>)
    requires AllFree(bs) && bs != []
    ensures FreePairs(bs) == |bs| - 1
  {
    if |bs| >= 2 { AllFreePairs(bs[1..]); }
  }

  /** A run of k free blocks becomes one of ceil(k / 2). */
  lemma {:induction false} PassOfRun(run: seq<Block>, rest: seq<Block>)
    requires AllFree(run) && (rest == [] || !rest[0].free)
    ensures Pass(run + rest) == Pass(run) + Pass(rest)
    ensures |Pass(run)| == (|run| + 1) / 2 && AllFree(Pass(run))
    decreases |run|
  {
    if run == [] {
      assert run + rest == rest;
    } else if |run| == 1 {
      assert (run + rest)[1..] == rest;
    } else {
      assert (run + rest)[2..] == run[2..] + rest;
      PassOfRun(run[2..], rest);
    }
  }

  // ---------------------------------------------------------------- live payloads

  /** Payload address and size of every block in use, for a list that starts at `off`. */
  function Live(bs: seq<Block>, off: nat): seq<(nat, nat)> {
    if bs == [] then []
    else (if bs[0].free then [] else [(off + HEADER, bs[0].size)]) + Live(bs[1..], off + HEADER + bs[0].size)
  }

  lemma {:induction false} LiveConcat(a: seq<Block>, b: seq<Block>, off: nat)
    ensures Live(a + b, off) == Live(a, off) + Live(b, off + Extent(a))
  {
    if a == [] {
      assert a + b == b;
    } else {
      assert (a + b)[1..] == a[1..] + b;
      LiveConcat(a[1..], b, off + HEADER + a[0].size);
    }
  }

  lemma {:induction false} LiveMiddle(a: seq<Block>, x: seq<Block>, b: seq<Block>)
    ensures Live(a + x + b, 0) == Live(a, 0) + Live(x, Extent(a)) + Live(b, Extent(a) + Extent(x))
  {
    LiveConcat(a, x, 0);
    ExtentConcat(a, x);
    LiveConcat(a + x, b, 0);
  }

  /** Coalescing moves, resizes and drops no block in use. */
  lemma {:induction false} PassLive(bs: seq<Block>, off: nat)
    ensures Live(Pass(bs), off) == Live(bs, off)
    decreases |bs|
  {
    if |bs| >= 2 {
      if bs[0].free && bs[1].free {
        PassLive(bs[2..], off + HEADER + bs[0].size + HEADER + bs[1].size);
        assert bs[1..][1..] == bs[2..];
        assert Pass(bs)[1..] == Pass(bs[2..]);
      } else {
        PassLive(bs[1..], off + HEADER + bs[0].size);
        assert Pass(bs)[1..] == Pass(bs[1..]);
      }
    }
  }

  /** kfree removes exactly the freed block from the live payloads. */
  lemma {:induction false} KfreeLive(a: seq<Block>, x: Block, b: seq<Block>)
    requires !x.free
    ensures var before, after := Live(a, 0), Live(b, Extent(a) + HEADER + x.size);
      && Live(a + [x] + b, 0) == before + [(Extent(a) + HEADER, x.size)] + after
      && Live(Kfree(a + [x] + b, |a|), 0) == before + after
  {
    var y := x.(free := true);
    assert Extent([x]) == HEADER + x.size;
    assert Extent([y]) == HEADER + x.size;
    LiveMiddle(a, [x], b);
    LiveMiddle(a, [y], b);
    assert Live([y], Extent(a)) == [] && Live([x], Extent(a)) == [(Extent(a) + HEADER, x.size)];
    assert Released(a + [x] + b, |a|) == a + [y] + b;
    PassLive(a + [y] + b, 0);
  }

  /** A successful kmalloc adds exactly one live payload, of at least the rounded size,
      at the returned address; nothing else moves or changes size. */
  lemma {:induction false} KmallocLive(bs: seq<Block>, request: nat) returns (before: seq<(nat, nat)>, n: nat, after: seq<(nat, nat)>)
    requires Kmalloc(bs, request).1 != NIL
    ensures n == GrantSize(bs, request)
    ensures Rounded(request) <= n <= Rounded(request) + HEADER && Live(bs, 0) == before + after
    ensures 0 <= Kmalloc(bs, request).1
    ensures Live(Kmalloc(bs, request).0, 0) == before + [(Kmalloc(bs, request).1 as nat, n)] + after
  {
    var size := Rounded(request);
    var i := FirstFit(bs, size);
    var a, x, b := bs[..i], bs[i], bs[i + 1..];
    assert bs == a + [x] + b;
    AllocLive(a, x, b, size);
    before, n, after := Live(a, 0), Carved(x, size)[0].size, Live(b, Extent(a) + HEADER + x.size);
    CarvedLive(x, size, 0);
  }

  lemma {:induction false} AllocLive(a: seq<Block>, x: Block, b: seq<Block>, size: nat)
    requires x.free && size <= x.size
    ensures var before, after := Live(a, 0), Live(b, Extent(a) + HEADER + x.size);
      && Live(a + [x] + b, 0) == before + after
      && Live(a + Carved(x, size) + b, 0) == before + [(Extent(a) + HEADER, Carved(x, size)[0].size)] + after
  {
    var c := Carved(x, size);
    LiveMiddle(a, [x], b);
    LiveMiddle(a, c, b);
    CarvedExtent(x, size);
    CarvedLive(x, size, Extent(a));
    assert Extent([x]) == HEADER + x.size;
    assert Live([x], Extent(a)) == [];
  }

  lemma {:induction false} CarvedLive(b: Block, size: nat, off: nat)
    requires size <= b.size
    ensures Live(Carved(b, size), off) == [(off + HEADER, Carved(b, size)[0].size)]
    ensures size <= Carved(b, size)[0].size <= size + HEADER
  {
    var c := Carved(b, size);
    if b.size > size + HEADER {
      assert c[1..] == [c[1]];
      assert Live([c[1]], off + HEADER + size) == [];
    }
  }

  /** The payloads lie between two addresses. */
  predicate Within(ps: seq<(nat, nat)>, lo: nat, hi: nat) {
    forall i :: 0 <= i < |ps| ==> lo <= ps[i].0 && ps[i].0 + ps[i].1 <= hi
  }

  /** The payloads are in address order, each with room for a header before the next. */
  predicate Apart(ps: seq<(nat, nat)>) {
    forall i, j :: 0 <= i < j < |ps| ==> ps[i].0 + ps[i].1 + HEADER <= ps[j].0
  }

  lemma {:induction false} ApartCons(p: (nat, nat), ps: seq<(nat, nat)>, lo: nat, hi: nat)
    requires Apart(ps) && Within(ps, p.0 + p.1 + HEADER, hi) && lo <= p.0 && p.0 + p.1 <= hi
    ensures Apart([p] + ps) && Within([p] + ps, lo, hi)
  {
  }

  lemma {:induction false} WithinWeaken(ps: seq<(nat, nat)>, lo: nat, lo': nat, hi: nat)
    requires Within(ps, lo, hi) && lo' <= lo
    ensures Within(ps, lo', hi)
  {
  }

  lemma {:induction false} LiveNone(off: nat)
    ensures Live([], off) == [] && Apart(Live([], off))
    ensures forall lo, hi :: Within(Live([], off), lo, hi)
  {
  }

  lemma {:induction false} LiveCons(bs: seq<Block>, off: nat)
    requires bs != []
    ensures var rest := Live(bs[1..], off + HEADER + bs[0].size);
      Live(bs, off) == if bs[0].free then rest else [(off + HEADER, bs[0].size)] + rest
    ensures Extent(bs) == HEADER + bs[0].size + Extent(bs[1..])
  {
  }

  /** Live payloads lie inside the heap and do not overlap each other or a header. */
  lemma {:induction false} LiveDisjoint(bs: seq<Block>, off: nat)
    ensures Within(Live(bs, off), off + HEADER, off + Extent(bs)) && Apart(Live(bs, off))
  {
    hide Within, Apart, Live, Extent;
    if bs == [] {
      LiveNone(off);
    } else {
      var next := off + HEADER + bs[0].size;
      LiveDisjoint(bs[1..], next);
      LiveCons(bs, off);
      var rest := Live(bs[1..], next);
      if bs[0].free {
        WithinWeaken(rest, next + HEADER, off + HEADER, off + Extent(bs));
      } else {
        ApartCons((off + HEADER, bs[0].size), rest, off + HEADER, off + Extent(bs));
      }
    }
  }

  // ---------------------------------------------------------------- requests

  /** The rounding keeps the request covered exactly when it does not wrap. */
  lemma {:induction false} RoundedCovers(request: nat)
    requires request < TWO32
    ensures Rounded(request) >= request <==> request <= TWO32 - 8
    ensures request <= TWO32 - 8 ==> Rounded(request) < request + 8
    ensures request > TWO32 - 8 ==> Rounded(request) == 0
    ensures Rounded(request) % 8 == 0
  {
  }

  /** A request fails exactly when it is zero or no free block has the rounded size. */
  lemma {:induction false} KmallocFails(bs: seq<Block>, request: nat)
    ensures Kmalloc(bs, request).1 == NIL <==>
      request == 0 || forall i :: 0 <= i < |bs| ==> !(bs[i].free && Rounded(request) <= bs[i].size)
    ensures Kmalloc(bs, request).1 == NIL ==> Kmalloc(bs, request).0 == bs
  {
  }

  // ---------------------------------------------------------------- runs

  /** What every call keeps: the blocks tile the heap in whole words, and at most one pair
      of neighbours is free. */
  predicate HeapInv(bs: seq<Block>) {
    bs != [] && Extent(bs) == HEAP_SIZE && WordSized(bs) && FreePairs(bs) <= 1
  }

  lemma {:induction false} InitialInv()
    ensures HeapInv(Initial())
  {
    assert Initial()[1..] == [];
  }

  lemma {:induction false} AllocAligned(bs: seq<Block>, i: nat, size: nat)
    requires i < |bs| && WordSized(bs) && size % 4 == 0 && size <= bs[i].size
    ensures WordSized(AllocAt(bs, i, size))
  {
    var r := AllocAt(bs, i, size);
    forall j | 0 <= j < |r| ensures r[j].size % 4 == 0 {
      if j < i { assert r[j] == bs[j]; }
      else if j >= i + |Carved(bs[i], size)| { assert r[j] == bs[j - |Carved(bs[i], size)| + 1]; }
    }
  }

  lemma {:induction false} RoundedWords(request: nat)
    ensures Rounded(request) % 4 == 0
  {
    Down8((request + 7) % 0x1_0000_0000);
  }

  lemma {:induction false} Down8(s: nat)
    ensures (s - s % 8) % 4 == 0
  {
    var k := s / 8;
    assert s - s % 8 == 4 * (2 * k);
    FourTimes(2 * k);
  }

  lemma {:induction false} KmallocKeeps(bs: seq<Block>, request: nat)
    requires HeapInv(bs)
    ensures HeapInv(Kmalloc(bs, request).0)
  {
    var i := FirstFit(bs, Rounded(request));
    RoundedWords(request);
    hide Rounded, WordSized, Extent, FreePairs;
    if request != 0 && i < |bs| {
      AllocExtent(bs, i, Rounded(request));
      AllocAligned(bs, i, Rounded(request));
      AllocPairs(bs, i, Rounded(request));
    }
  }

  lemma {:induction false} KfreeKeeps(bs: seq<Block>, i: nat)
    requires HeapInv(bs) && i < |bs|
    ensures HeapInv(Kfree(bs, i))
  {
    ReleasedExtent(bs, i);
    PassExtent(Released(bs, i));
    PassAligned(Released(bs, i));
    ReleasedPairs(bs, i);
    PassHalves(Released(bs, i));
  }

  datatype Op = OpAlloc(request: nat) | OpFree(index: nat)

  /** A run calls kfree only with payloads of listed blocks. */
  function Step(bs: seq<Block>, op: Op): seq<Block> {
    match op
    case OpAlloc(request) => Kmalloc(bs, request).0
    case OpFree(i) => if i < |bs| then Kfree(bs, i) else bs
  }

  /** In every run the list tiles the heap and has at most one adjacent free pair. */
  function Run(ops: seq<Op>): (bs: seq<Block>)
    ensures HeapInv(bs)
  {
    if ops == [] then
      InitialInv();
      Initial()
    else
      var bs := Run(ops[..|ops| - 1]);
      var op := ops[|ops| - 1];
      if op.OpAlloc? then
        KmallocKeeps(bs, op.request);
        Step(bs, op)
      else if op.index < |bs| then
        KfreeKeeps(bs, op.index);
        Step(bs, op)
      else bs
  }

  /** Never three free blocks in a row; at most two blocks once nothing is live. */
  lemma {:induction false} RunFragmentation(ops: seq<Op>)
    ensures forall i :: 0 <= i < |Run(ops)| - 2 ==>
      !(Run(ops)[i].free && Run(ops)[i + 1].free && Run(ops)[i + 2].free)
    ensures Live(Run(ops), 0) == [] ==> |Run(ops)| <= 2
  {
    Fragmentation(Run(ops));
  }

  lemma {:induction false} Fragmentation(bs: seq<Block>)
    requires HeapInv(bs)
    ensures forall i :: 0 <= i < |bs| - 2 ==> !(bs[i].free && bs[i + 1].free && bs[i + 2].free)
    ensures Live(bs, 0) == [] ==> |bs| <= 2
  {
    forall i | 0 <= i < |bs| - 2 ensures !(bs[i].free && bs[i + 1].free && bs[i + 2].free) {
      if bs[i].free && bs[i + 1].free && bs[i + 2].free { NoTriple(bs, i); }
    }
    if Live(bs, 0) == [] {
      NothingLive(bs, 0);
      AllFreePairs(bs);
    }
  }

  lemma {:induction false} NothingLive(bs: seq<Block>, off: nat)
    requires Live(bs, off) == []
    ensures AllFree(bs)
  {
    if bs != [] {
      NothingLive(bs[1..], off + HEADER + bs[0].size);
      assert bs[0].free;
    }
  }
}
