/** kernel.c: the heap allocator in place.

    The heap is an array of 32-bit words.  A block header is the three words is_free,
    size and next at the block's byte offset; pointers are byte offsets into the heap. */
module KernelHeap {
  import opened HeapModel

  const WORDS := HEAP_SIZE / 4

  /** The pointer to the block that would start at `off`. */
  function Ptr(off: int): int {
    if off == HEAP_SIZE then NIL else off
  }

  predicate HeaderAt(h: seq<int>, off: nat, b: Block) {
    && off % 4 == 0 && off / 4 + 2 < |h|
    && h[off / 4] == (if b.free then 1 else 0)
    && h[off / 4 + 1] == b.size
    && h[off / 4 + 2] == Ptr(off + HEADER + b.size)
  }

  /** The headers of the blocks `bs` stand in the heap from `off` on. */
  predicate Headers(h: seq<int>, bs: seq<Block>, off: nat) {
    bs != [] ==> HeaderAt(h, off, bs[0]) && Headers(h, bs[1..], off + HEADER + bs[0].size)
  }

  lemma {:induction false} HeadersConcat(h: seq<int>, a: seq<Block>, b: seq<Block>, off: nat)
    ensures Headers(h, a + b, off) <==> Headers(h, a, off) && Headers(h, b, off + Extent(a))
  {
    if a == [] {
      assert a + b == b;
    } else {
      assert (a + b)[1..] == a[1..] + b;
      HeadersConcat(h, a[1..], b, off + HEADER + a[0].size);
    }
  }

  /** Only words from byte `lo` up to byte `hi` differ. */
  predicate SameOutside(h: seq<int>, h': seq<int>, lo: nat, hi: nat) {
    |h| == |h'| && forall w :: 0 <= w < |h| && !(lo <= 4 * w < hi) ==> h'[w] == h[w]
  }

  lemma {:induction false} HeadersFrame(h: seq<int>, h': seq<int>, bs: seq<Block>, off: nat, lo: nat, hi: nat)
    requires Headers(h, bs, off) && SameOutside(h, h', lo, hi)
    requires hi <= off || off + Extent(bs) <= lo
    ensures Headers(h', bs, off)
  {
    if bs != [] {
      HeadersFrame(h, h', bs[1..], off + HEADER + bs[0].size, lo, hi);
    }
  }

  /** Word `w` belongs to the payload of a block in use. */
  predicate LiveWord(bs: seq<Block>, off: nat, w: nat) {
    bs != [] &&
    ((!bs[0].free && off + HEADER <= 4 * w < off + HEADER + bs[0].size)
     || LiveWord(bs[1..], off + HEADER + bs[0].size, w))
  }

  lemma {:induction false} LiveWordRange(bs: seq<Block>, off: nat, w: nat)
    requires LiveWord(bs, off, w)
    ensures off + HEADER <= 4 * w < off + Extent(bs)
  {
    if LiveWord(bs[1..], off + HEADER + bs[0].size, w) {
      LiveWordRange(bs[1..], off + HEADER + bs[0].size, w);
    }
  }

  lemma {:induction false} LiveWordConcat(a: seq<Block>, b: seq<Block>, off: nat, w: nat)
    ensures LiveWord(a + b, off, w) <==> LiveWord(a, off, w) || LiveWord(b, off + Extent(a), w)
  {
    if a == [] {
      assert a + b == b;
    } else {
      assert (a + b)[1..] == a[1..] + b;
      LiveWordConcat(a[1..], b, off + HEADER + a[0].size, w);
    }
  }

  /** No word of a live payload changes. */
  ghost predicate LiveSame(h: seq<int>, h': seq<int>, bs: seq<Block>) {
    |h| == |h'| && forall w: nat :: w < |h| && LiveWord(bs, 0, w) ==> h'[w] == h[w]
  }

  /** Writes confined to a free block, or to the header of any block, spare live payloads. */
  lemma {:induction false} ConfinedIsSafe(h: seq<int>, h': seq<int>, a: seq<Block>, x: Block, b: seq<Block>, hi: nat)
    requires SameOutside(h, h', Extent(a), hi)
    requires hi <= Extent(a) + HEADER || (x.free && hi <= Extent(a) + HEADER + x.size)
    ensures LiveSame(h, h', a + [x] + b)
  {
    forall w: nat | w < |h| && LiveWord(a + [x] + b, 0, w) ensures h'[w] == h[w] {
      LiveWordConcat(a + [x], b, 0, w);
      LiveWordConcat(a, [x], 0, w);
      ExtentConcat(a, [x]);
      assert Extent([x]) == HEADER + x.size;
      if LiveWord(a, 0, w) { LiveWordRange(a, 0, w); }
      else if LiveWord(b, Extent(a + [x]), w) { LiveWordRange(b, Extent(a + [x]), w); }
    }
  }

  lemma {:induction false} HeadersMiddle(h: seq<int>, a: seq<Block>, x: seq<Block>, b: seq<Block>)
    ensures Headers(h, a + x + b, 0) <==>
      Headers(h, a, 0) && Headers(h, x, Extent(a)) && Headers(h, b, Extent(a) + Extent(x))
  {
    HeadersConcat(h, a + x, b, 0);
    HeadersConcat(h, a, x, 0);
    ExtentConcat(a, x);
  }

  /** Replacing the blocks `x` by `y` of the same extent, by writes within that extent. */
  lemma {:induction false} HeadersReplace(h: seq<int>, h': seq<int>, a: seq<Block>, x: seq<Block>, y: seq<Block>, b: seq<Block>)
    requires Headers(h, a + x + b, 0) && SameOutside(h, h', Extent(a), Extent(a) + Extent(x))
    requires Headers(h', y, Extent(a)) && Extent(y) == Extent(x)
    ensures Headers(h', a + y + b, 0)
  {
    hide Headers, SameOutside, Extent;
    HeadersMiddle(h, a, x, b);
    HeadersFrame(h, h', a, 0, Extent(a), Extent(a) + Extent(x));
    HeadersFrame(h, h', b, Extent(a) + Extent(x), Extent(a), Extent(a) + Extent(x));
    HeadersMiddle(h', a, y, b);
  }

  /** What the header of block `i` holds, and where the next block is. */
  lemma {:induction false} BlockAt(h: seq<int>, bs: seq<Block>, i: nat)
    requires Headers(h, bs, 0) && i < |bs| && Extent(bs) == HEAP_SIZE
    ensures var off := Extent(bs[..i]);
      && HeaderAt(h, off, bs[i]) && off != HEAP_SIZE
      && off + HEADER + bs[i].size == Extent(bs[..i + 1]) <= HEAP_SIZE
      && (i + 1 == |bs| <==> Extent(bs[..i + 1]) == HEAP_SIZE)
  {
    var a, b := bs[..i], bs[i + 1..];
    assert bs == a + [bs[i]] + b;
    HeadersMiddle(h, a, [bs[i]], b);
    assert Headers(h, [bs[i]], Extent(a));
    ExtentSplit(bs, i);
    if b != [] { assert Extent(b) >= HEADER; }
  }

  lemma {:induction false} CarvedHeaders(h: seq<int>, x: Block, size: nat, off: nat)
    requires size + HEADER < x.size && off % 4 == 0 && off / 4 + 2 < |h| && off + HEADER + x.size <= HEAP_SIZE
    requires h[off / 4] == 0 && h[off / 4 + 1] == size && h[off / 4 + 2] == off + HEADER + size
    requires HeaderAt(h, off + HEADER + size, Block(true, x.size - size - HEADER))
    ensures Headers(h, Carved(x, size), off)
  {
    var c := Carved(x, size);
    assert c[1..] == [c[1]] && [c[1]][1..] == [];
    assert Headers(h, [c[1]], off + HEADER + size);
  }

  lemma {:induction false} FirstFitIs(bs: seq<Block>, size: nat, i: nat)
    requires i <= |bs| && (i < |bs| ==> bs[i].free && size <= bs[i].size)
    requires forall j :: 0 <= j < i ==> !(bs[j].free && size <= bs[j].size)
    ensures FirstFit(bs, size) == i
  {
  }

  /** The list and the live payloads after a block was carved. */
  lemma {:induction false} CarveResult(h: seq<int>, h': seq<int>, a: seq<Block>, x: Block, b: seq<Block>, size: nat)
    requires Headers(h, a + [x] + b, 0) && x.free && size <= x.size
    requires SameOutside(h, h', Extent(a), Extent(a) + HEADER + x.size)
    requires Headers(h', Carved(x, size), Extent(a))
    ensures Headers(h', a + Carved(x, size) + b, 0) && LiveSame(h, h', a + [x] + b)
  {
    assert Extent([x]) == HEADER + x.size;
    CarvedExtent(x, size);
    HeadersReplace(h, h', a, [x], Carved(x, size), b);
    ConfinedIsSafe(h, h', a, x, b, Extent(a) + HEADER + x.size);
  }

  /** The list and the live payloads after a block was marked free. */
  lemma {:induction false} ReleaseResult(h: seq<int>, h': seq<int>, a: seq<Block>, x: Block, b: seq<Block>)
    requires Headers(h, a + [x] + b, 0)
    requires HeaderAt(h, Extent(a), x) && h' == h[Extent(a) / 4 := 1]
    ensures Headers(h', Released(a + [x] + b, |a|), 0) && LiveSame(h, h', Released(a + [x] + b, |a|))
  {
    var y := x.(free := true);
    assert Extent([x]) == HEADER + x.size;
    assert Extent([y]) == HEADER + x.size;
    assert Headers(h', [y], Extent(a));
    HeadersReplace(h, h', a, [x], [y], b);
    ConfinedIsSafe(h, h', a, y, b, Extent(a) + HEADER);
    assert Released(a + [x] + b, |a|) == a + [y] + b;
  }

  lemma {:induction false} LiveSameTrans(h: seq<int>, h': seq<int>, h'': seq<int>, bs: seq<Block>)
    requires LiveSame(h, h', bs) && LiveSame(h', h'', bs)
    ensures LiveSame(h, h'', bs)
  {
  }

  // ---------------------------------------------------------------- the coalescing pass

  function Merged(b: seq<Block>): Block
    requires |b| >= 2
  {
    Block(true, b[0].size + HEADER + b[1].size)
  }

  /** The walk of kfree stands at the first block of `b`, the blocks `a` behind it. */
  predicate At(h: seq<int>, current: int, a: seq<Block>, b: seq<Block>) {
    && Extent(a + b) == HEAP_SIZE && Headers(h, a + b, 0)
    && current == Ptr(Extent(a)) && (b == [] <==> current == NIL)
    && (current != NIL ==> HeaderAt(h, current, b[0]) && (h[current / 4 + 2] == NIL <==> |b| == 1))
  }

  /** The list `a + b` seen from the first block of `b`. */
  lemma {:induction false} Cursor(h: seq<int>, a: seq<Block>, b: seq<Block>)
    requires Headers(h, a + b, 0) && Extent(a + b) == HEAP_SIZE
    ensures b == [] <==> Ptr(Extent(a)) == NIL
    ensures b != [] ==>
      && Ptr(Extent(a)) == Extent(a) && HeaderAt(h, Extent(a), b[0])
      && (h[Extent(a) / 4 + 2] == NIL <==> |b| == 1)
  {
    ExtentConcat(a, b);
    HeadersConcat(h, a, b, 0);
    if b != [] {
      assert |b| > 1 ==> Extent(b[1..]) >= HEADER;
    }
  }

  /** The list `a + b` seen from the second block of `b`. */
  lemma {:induction false} SecondCursor(h: seq<int>, a: seq<Block>, b: seq<Block>)
    requires Headers(h, a + b, 0) && Extent(a + b) == HEAP_SIZE && |b| >= 2
    ensures var next := Extent(a) + HEADER + b[0].size;
      && HeaderAt(h, Extent(a), b[0]) && HeaderAt(h, next, b[1])
      && h[Extent(a) / 4 + 2] == next && next / 4 > Extent(a) / 4 + 2
  {
    ExtentConcat(a, b);
    HeadersConcat(h, a, b, 0);
    assert b[1..] != [] && Headers(h, b[1..], Extent(a) + HEADER + b[0].size);
    assert Extent(b) == HEADER + b[0].size + Extent(b[1..]);
    assert Extent(b[1..]) >= HEADER;
  }

  lemma {:induction false} ExtentSnoc(a: seq<Block>, x: Block)
    ensures Extent(a + [x]) == Extent(a) + HEADER + x.size
  {
    ExtentConcat(a, [x]);
    assert Extent([x]) == HEADER + x.size;
  }

  lemma {:induction false} PassMerges(a: seq<Block>, b: seq<Block>)
    requires |b| >= 2 && b[0].free && b[1].free
    ensures a + [Merged(b)] + Pass(b[2..]) == a + Pass(b)
  {
    Associate(a, [Merged(b)], Pass(b[2..]));
  }

  lemma {:induction false} PassSkips(a: seq<Block>, b: seq<Block>)
    requires |b| >= 2 && !(b[0].free && b[1].free)
    ensures a + [b[0]] + Pass(b[1..]) == a + Pass(b) && a + [b[0]] + b[1..] == a + b
  {
    Associate(a, [b[0]], Pass(b[1..]));
    Associate(a, [b[0]], b[1..]);
    assert b == [b[0]] + b[1..];
  }

  lemma {:induction false} Associate(a: seq<Block>, b: seq<Block>, c: seq<Block>)
    ensures a + (b + c) == a + b + c
  {
  }

  ghost predicate SameLiveWords(bs: seq<Block>, bs': seq<Block>) {
    forall w: nat :: LiveWord(bs, 0, w) <==> LiveWord(bs', 0, w)
  }

  lemma {:induction false} LiveSameStep(h: seq<int>, h': seq<int>, h'': seq<int>, bs: seq<Block>, bs': seq<Block>)
    requires LiveSame(h, h', bs') && LiveSame(h', h'', bs) && SameLiveWords(bs, bs')
    ensures LiveSame(h, h'', bs')
  {
  }

  /** Merging the first two blocks of `b` by rewriting the header of the first. */
  lemma {:induction false} MergeResult(h: seq<int>, h': seq<int>, a: seq<Block>, b: seq<Block>)
    requires Headers(h, a + b, 0) && |b| >= 2 && b[0].free && b[1].free && Extent(a + b) == HEAP_SIZE
    requires HeaderAt(h, Extent(a), b[0]) && HeaderAt(h, Extent(a) + HEADER + b[0].size, b[1])
    requires var c, n := Extent(a) / 4, (Extent(a) + HEADER + b[0].size) / 4;
      h' == h[c + 1 := h[c + 1] + HEADER + h[n + 1]][c + 2 := h[n + 2]]
    ensures Headers(h', a + [Merged(b)] + b[2..], 0) && LiveSame(h, h', a + b)
    ensures Extent(a + [Merged(b)] + b[2..]) == HEAP_SIZE && HeaderAt(h', Extent(a), Merged(b))
    ensures SameLiveWords(a + [Merged(b)] + b[2..], a + b)
  {
    var x, y, rest := [b[0], b[1]], [Merged(b)], b[2..];
    assert a + b == a + x + rest && a + b == a + [b[0]] + b[1..];
    MergedExtent(b[0], b[1], b);
    MergedHeader(h, h', a, b);
    hide Headers, Extent, LiveSame, SameLiveWords, HeaderAt;
    HeadersReplace(h, h', a, x, y, rest);
    ConfinedIsSafe(h, h', a, b[0], b[1..], Extent(a) + HEADER);
    MergeExtent(a, x, y, rest);
    MergeLive(a, b);
  }

  lemma {:induction false} MergedExtent(x: Block, y: Block, b: seq<Block>)
    requires |b| >= 2 && b[0] == x && b[1] == y
    ensures Extent([x, y]) == Extent([Merged(b)]) == 2 * HEADER + x.size + y.size
  {
    assert [x, y][1..] == [y];
    assert Extent([y]) == HEADER + y.size;
  }

  /** The two words written make the header of the merged block. */
  lemma {:induction false} MergedHeader(h: seq<int>, h': seq<int>, a: seq<Block>, b: seq<Block>)
    requires |b| >= 2 && b[0].free && b[1].free && |h| == |h'|
    requires HeaderAt(h, Extent(a), b[0]) && HeaderAt(h, Extent(a) + HEADER + b[0].size, b[1])
    requires var c, n := Extent(a) / 4, (Extent(a) + HEADER + b[0].size) / 4;
      h' == h[c + 1 := h[c + 1] + HEADER + h[n + 1]][c + 2 := h[n + 2]]
    ensures Headers(h', [Merged(b)], Extent(a)) && HeaderAt(h', Extent(a), Merged(b))
    ensures SameOutside(h, h', Extent(a), Extent(a) + HEADER)
    ensures SameOutside(h, h', Extent(a), Extent(a) + 2 * HEADER + b[0].size + b[1].size)
  {
  }

  /** Stepping over block `x`. */
  lemma {:induction false} Advance(h: seq<int>, a: seq<Block>, x: Block, b: seq<Block>)
    requires Headers(h, a + [x] + b, 0) && Extent(a + [x] + b) == HEAP_SIZE && HeaderAt(h, Extent(a), x)
    ensures At(h, h[Extent(a) / 4 + 2], a + [x], b)
  {
    ExtentSnoc(a, x);
    Cursor(h, a + [x], b);
  }

  lemma {:induction false} MergeExtent(a: seq<Block>, x: seq<Block>, y: seq<Block>, rest: seq<Block>)
    requires Extent(x) == Extent(y)
    ensures Extent(a + x + rest) == Extent(a + y + rest)
  {
    ExtentConcat(a, x);
    ExtentConcat(a, y);
    ExtentConcat(a + x, rest);
    ExtentConcat(a + y, rest);
  }

  lemma {:induction false} MergeLive(a: seq<Block>, b: seq<Block>)
    requires |b| >= 2 && b[0].free && b[1].free
    ensures SameLiveWords(a + [Merged(b)] + b[2..], a + b)
  {
    forall w: nat ensures LiveWord(a + [Merged(b)] + b[2..], 0, w) <==> LiveWord(a + b, 0, w) {
      var m := [Merged(b)] + b[2..];
      assert a + [Merged(b)] + b[2..] == a + m;
      LiveWordConcat(a, m, 0, w);
      LiveWordConcat(a, b, 0, w);
      assert m[1..] == b[2..] && b[1..][1..] == b[2..];
    }
  }

  // ---------------------------------------------------------------- statistics

  function FreeBytes(bs: seq<Block>): nat {
    if bs == [] then 0 else (if bs[0].free then bs[0].size else 0) + FreeBytes(bs[1..])
  }

  function UsedBytes(bs: seq<Block>): nat {
    if bs == [] then 0 else (if bs[0].free then 0 else bs[0].size) + UsedBytes(bs[1..])
  }

  lemma {:induction false} BytesConcat(a: seq<Block>, b: seq<Block>)
    ensures FreeBytes(a + b) == FreeBytes(a) + FreeBytes(b) && UsedBytes(a + b) == UsedBytes(a) + UsedBytes(b)
  {
    if a == [] {
      assert a + b == b;
    } else {
      assert (a + b)[1..] == a[1..] + b;
      BytesConcat(a[1..], b);
    }
  }

  lemma {:induction false} BytesStep(bs: seq<Block>, i: nat)
    requires i < |bs|
    ensures FreeBytes(bs[..i + 1]) == FreeBytes(bs[..i]) + if bs[i].free then bs[i].size else 0
    ensures UsedBytes(bs[..i + 1]) == UsedBytes(bs[..i]) + if bs[i].free then 0 else bs[i].size
  {
    assert bs[..i + 1] == bs[..i] + [bs[i]];
    BytesConcat(bs[..i], [bs[i]]);
  }

  /** Free bytes, used bytes and headers make up the whole heap. */
  lemma {:induction false} BytesTile(bs: seq<Block>)
    ensures FreeBytes(bs) + UsedBytes(bs) + HEADER * |bs| == Extent(bs)
  {
    if bs != [] { BytesTile(bs[1..]); }
  }

  lemma {:induction false} KmallocIs(bs: seq<Block>, request: nat)
    requires request != 0
    ensures var i := FirstFit(bs, Rounded(request));
      HeapModel.Kmalloc(bs, request) ==
        if i == |bs| then (bs, NIL) else (AllocAt(bs, i, Rounded(request)), Extent(bs[..i]) + HEADER)
  {
  }

  class Heap {
    const heap: array<int>
    var freeList: int
    ghost var blocks: seq<Block>

    ghost predicate Valid()
      reads this, heap
    {
      && heap.Length == WORDS && freeList == 0
      && HeapInv(blocks) && Headers(heap[..], blocks, 0)
    }

    /** memory_init. */
    constructor ()
      ensures Valid() && fresh(heap) && blocks == Initial()
    {
      heap := new int[WORDS];
      freeList := 0;
      blocks := Initial();
      new;
      heap[freeList / 4] := 1;
      heap[freeList / 4 + 1] := HEAP_SIZE - HEADER;
      heap[freeList / 4 + 2] := NIL;
      InitialInv();
      assert Initial()[1..] == [];
    }

    /** Serves a request from the free block at `current`. */
    method Carve(current: nat, size: nat, ghost x: Block)
      requires heap.Length == WORDS && HeaderAt(heap[..], current, x) && size % 4 == 0 && size <= x.size
      requires x.size % 4 == 0 && current + HEADER + x.size <= HEAP_SIZE
      modifies heap
      ensures SameOutside(old(heap[..]), heap[..], current, current + HEADER + x.size)
      ensures Headers(heap[..], Carved(x, size), current)
    {
      var c := current / 4;
      ghost var next := heap[c + 2];
      if heap[c + 1] > (size + HEADER) % 0x1_0000_0000 {
        Split(current, size, x);
        heap[c] := 0;
        CarvedHeaders(heap[..], x, size, current);
      } else {
        heap[c] := 0;
      }
    }

    /** Cuts a new free block off the end of the block at `current`. */
    method Split(current: nat, size: nat, ghost x: Block)
      requires heap.Length == WORDS && HeaderAt(heap[..], current, x) && size % 4 == 0 && size + HEADER < x.size
      requires x.size % 4 == 0 && current + HEADER + x.size <= HEAP_SIZE
      modifies heap
      ensures SameOutside(old(heap[..]), heap[..], current, current + HEADER + x.size)
      ensures heap[current / 4 + 1] == size && heap[current / 4 + 2] == current + HEADER + size
      ensures HeaderAt(heap[..], current + HEADER + size, Block(true, x.size - size - HEADER))
    {
      var c := current / 4;
      var n := (current + HEADER + size) / 4;
      assert n == c + 3 + size / 4;
      heap[n] := 1;
      heap[n + 1] := heap[c + 1] - size - HEADER;
      heap[n + 2] := heap[c + 2];
      heap[c + 1] := size;
      heap[c + 2] := current + HEADER + size;
    }

    /** Serves a request from the block at index `i`. */
    method Take(current: nat, size: nat, ghost i: nat)
      requires heap.Length == WORDS && Headers(heap[..], blocks, 0) && Extent(blocks) == HEAP_SIZE && WordSized(blocks)
      requires i < |blocks| && current == Extent(blocks[..i]) && blocks[i].free && size <= blocks[i].size && size % 4 == 0
      modifies this`blocks, heap
      ensures blocks == AllocAt(old(blocks), i, size) && Headers(heap[..], blocks, 0)
      ensures LiveSame(old(heap[..]), heap[..], old(blocks))
    {
      BlockAt(heap[..], blocks, i);
      ghost var a, x, b := blocks[..i], blocks[i], blocks[i + 1..];
      assert blocks == a + [x] + b;
      Carve(current, size, x);
      CarveResult(old(heap[..]), heap[..], a, x, b, size);
      blocks := AllocAt(blocks, i, size);
    }

    /** The search of kmalloc: the first free block that is large enough. */
    method FindFit(size: nat) returns (current: int, ghost i: nat)
      requires Valid()
      ensures i == FirstFit(blocks, size) && (i == |blocks| <==> current == NIL)
      ensures current != NIL ==> current == Extent(blocks[..i])
    {
      current, i := freeList, 0;
      assert blocks[..0] == [];
      while current != NIL
        invariant 0 <= i <= |blocks| && current == Ptr(Extent(blocks[..i])) && (i == |blocks| <==> current == NIL)
        invariant forall j :: 0 <= j < i ==> !(blocks[j].free && size <= blocks[j].size)
        decreases |blocks| - i
      {
        BlockAt(heap[..], blocks, i);
        if heap[current / 4] != 0 && heap[current / 4 + 1] >= size {
          FirstFitIs(blocks, size, i);
          return;
        }
        current := heap[current / 4 + 2];
        i := i + 1;
      }
      FirstFitIs(blocks, size, i);
    }

    /** kmalloc: the result and the new block list are those of the model, and no live
        payload is written. */
    method Kmalloc(request: nat) returns (ptr: int)
      requires Valid() && request < TWO32
      modifies this`blocks, heap
      ensures Valid() && (blocks, ptr) == HeapModel.Kmalloc(old(blocks), request)
      ensures LiveSame(old(heap[..]), heap[..], old(blocks))
    {
      if request == 0 { return NIL; }
      var size := (request + 7) % 0x1_0000_0000;
      size := size - size % 8;
      assert size == Rounded(request);
      RoundedWords(request);
      KmallocIs(blocks, request);
      KmallocKeeps(blocks, request);
      hide Rounded, Headers, LiveSame, WordSized, Extent, AllocAt, FirstFit, FreePairs, HeapModel.Kmalloc;
      ghost var i;
      var current;
      current, i := FindFit(size);
      if current == NIL { return NIL; }
      Take(current, size, i);
      ptr := current + HEADER;
    }

    /** kfree of NULL or of the payload of block `i`. */
    method Kfree(ptr: int, ghost i: nat)
      requires Valid() && (ptr != NIL ==> i < |blocks| && ptr == Extent(blocks[..i]) + HEADER)
      modifies this`blocks, heap
      ensures Valid() && blocks == if ptr == NIL then old(blocks) else HeapModel.Kfree(old(blocks), i)
      ensures LiveSame(old(heap[..]), heap[..], if ptr == NIL then old(blocks) else Released(old(blocks), i))
    {
      if ptr == NIL { return; }
      ghost var a, x, b := blocks[..i], blocks[i], blocks[i + 1..];
      assert blocks == a + [x] + b;
      BlockAt(heap[..], blocks, i);
      KfreeKeeps(blocks, i);
      ReleasedExtent(blocks, i);
      var block := ptr - HEADER;
      heap[block / 4] := 1;
      blocks := Released(blocks, i);
      ReleaseResult(old(heap[..]), heap[..], a, x, b);
      label released:
      Coalesce();
      LiveSameTrans(old(heap[..]), old@released(heap[..]), heap[..], Released(old(blocks), i));
    }

    /** One round of the walk: the two blocks ahead are merged if both are free. */
    method CoalesceStep(current: nat, ghost a: seq<Block>, ghost b: seq<Block>)
        returns (next: int, ghost a': seq<Block>, ghost b': seq<Block>)
      requires heap.Length == WORDS && At(heap[..], current, a, b) && |b| >= 2
      modifies heap
      ensures At(heap[..], next, a', b') && a' + Pass(b') == a + Pass(b) && |b'| < |b|
      ensures SameLiveWords(a' + b', a + b) && LiveSame(old(heap[..]), heap[..], a + b)
    {
      SecondCursor(heap[..], a, b);
      var c := current / 4;
      var n := heap[c + 2] / 4;
      if heap[c] != 0 && heap[n] != 0 && current + HEADER + heap[c + 1] == heap[c + 2] {
        heap[c + 1] := heap[c + 1] + HEADER + heap[n + 1];
        heap[c + 2] := heap[n + 2];
        MergeResult(old(heap[..]), heap[..], a, b);
        PassMerges(a, b);
        Advance(heap[..], a, Merged(b), b[2..]);
        a', b' := a + [Merged(b)], b[2..];
      } else {
        PassSkips(a, b);
        Advance(heap[..], a, b[0], b[1..]);
        a', b' := a + [b[0]], b[1..];
      }
      next := heap[c + 2];
    }

    /** The pass of kfree over the whole list. */
    method Coalesce()
      requires heap.Length == WORDS && freeList == 0 && Extent(blocks) == HEAP_SIZE && Headers(heap[..], blocks, 0)
      modifies this`blocks, heap
      ensures blocks == Pass(old(blocks)) && Headers(heap[..], blocks, 0)
      ensures LiveSame(old(heap[..]), heap[..], old(blocks))
    {
      var current := freeList;
      ghost var a, b := [], blocks;
      assert a + b == blocks;
      Cursor(heap[..], a, b);
      while current != NIL && heap[current / 4 + 2] != NIL
        invariant At(heap[..], current, a, b)
        invariant a + Pass(b) == Pass(old(blocks)) && SameLiveWords(a + b, old(blocks))
        invariant LiveSame(old(heap[..]), heap[..], old(blocks))
        decreases |b|
      {
        ghost var h, bs := heap[..], a + b;
        current, a, b := CoalesceStep(current, a, b);
        LiveSameStep(old(heap[..]), h, heap[..], bs, old(blocks));
      }
      assert Pass(b) == b;
      blocks := a + b;
    }

    /** print_memory_stats: number of blocks, free bytes and used bytes. */
    method Stats() returns (count: nat, free: nat, used: nat)
      requires Valid()
      ensures count == |blocks| && free == FreeBytes(blocks) && used == UsedBytes(blocks)
      ensures free + used + HEADER * count == HEAP_SIZE
    {
      var current := freeList;
      count, free, used := 0, 0, 0;
      assert blocks[..0] == [];
      while current != NIL
        invariant count <= |blocks| && current == Ptr(Extent(blocks[..count]))
        invariant count == |blocks| <==> current == NIL
        invariant free == FreeBytes(blocks[..count]) && used == UsedBytes(blocks[..count])
        decreases |blocks| - count
      {
        BlockAt(heap[..], blocks, count);
        BytesStep(blocks, count);
        if heap[current / 4] != 0 {
          free := free + heap[current / 4 + 1];
        } else {
          used := used + heap[current / 4 + 1];
        }
        count := count + 1;
        current := heap[current / 4 + 2];
      }
      assert blocks[..count] == blocks;
      BytesTile(blocks);
    }
  }
}
