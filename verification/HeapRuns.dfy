/** Whole runs of the allocator, with a ledger of what was granted to whom. */
module HeapRuns {
  import opened HeapModel
  import opened KernelHeap

  datatype Call = Alloc(request: nat) | Free(ptr: int)

  /** What a live pointer was asked for, and what it got. */
  datatype Grant = Grant(request: nat, size: nat)

  datatype State = State(blocks: seq<Block>, ledger: map<int, Grant>)

  /** Index of the block in use whose payload is at `p`, for a list that starts at `off`. */
  function Locate(bs: seq<Block>, off: nat, p: int): nat {
    if bs == [] || (!bs[0].free && off + HEADER == p) then 0
    else 1 + Locate(bs[1..], off + HEADER + bs[0].size, p)
  }

  /** One call: the list of blocks and the ledger after it. */
  function Next(s: State, call: Call): State {
    match call
    case Alloc(request) =>
      var (bs, p) := Kmalloc(s.blocks, request);
      if p == NIL then s else State(bs, s.ledger[p := Grant(request, GrantSize(s.blocks, request))])
    case Free(p) =>
      var i := Locate(s.blocks, 0, p);
      if p in s.ledger && i < |s.blocks| then State(Kfree(s.blocks, i), s.ledger - {p}) else s
  }

  function Run(calls: seq<Call>): State {
    if calls == [] then State(Initial(), map[]) else Next(Run(calls[..|calls| - 1]), calls[|calls| - 1])
  }

  predicate Words(calls: seq<Call>) {
    forall i :: 0 <= i < |calls| && calls[i].Alloc? ==> calls[i].request < TWO32
  }

  // ---------------------------------------------------------------- the invariant

  /** The ledger has exactly the live payloads, with their sizes. */
  predicate Tracks(ledger: map<int, Grant>, ps: seq<(nat, nat)>) {
    && (forall j :: 0 <= j < |ps| ==> ps[j].0 in ledger && ledger[ps[j].0].size == ps[j].1)
    && (forall p :: p in ledger ==> exists j :: 0 <= j < |ps| && ps[j].0 == p)
  }

  /** What was granted covers what was asked for, unless the rounding wrapped. */
  predicate Covers(ledger: map<int, Grant>) {
    forall p :: p in ledger && ledger[p].request <= TWO32 - 8 ==> ledger[p].request <= ledger[p].size
  }

  ghost predicate Sound(s: State) {
    HeapInv(s.blocks) && Tracks(s.ledger, Live(s.blocks, 0)) && Covers(s.ledger)
  }

  lemma {:induction false} TracksInsert(ledger: map<int, Grant>, a: seq<(nat, nat)>, p: nat, g: Grant, b: seq<(nat, nat)>)
    requires Tracks(ledger, a + b) && Apart(a + [(p, g.size)] + b)
    ensures p !in ledger && Tracks(ledger[p := g], a + [(p, g.size)] + b)
  {
    var ps, qs := a + b, a + [(p, g.size)] + b;
    forall j | 0 <= j < |ps| ensures ps[j].0 != p {
      var k := if j < |a| then j else j + 1;
      assert qs[k] == ps[j] && qs[|a|] == (p, g.size);
    }
    forall q | q in ledger ensures exists k :: 0 <= k < |qs| && qs[k].0 == q {
      var j :| 0 <= j < |ps| && ps[j].0 == q;
      assert qs[if j < |a| then j else j + 1] == ps[j];
    }
    assert qs[|a|].0 == p;
    forall k | 0 <= k < |qs| && k != |a| ensures qs[k].0 in ledger && ledger[qs[k].0].size == qs[k].1 {
      assert qs[k] == ps[if k < |a| then k else k - 1];
    }
  }

  /** Where the elements beside a middle one stand without it. */
  lemma {:induction false} Beside(a: seq<(nat, nat)>, x: (nat, nat), b: seq<(nat, nat)>, k: nat)
    requires k < |a + [x] + b|
    ensures k == |a| ==> (a + [x] + b)[k] == x
    ensures k < |a| ==> (a + b)[k] == (a + [x] + b)[k]
    ensures k > |a| ==> (a + b)[k - 1] == (a + [x] + b)[k]
  {
  }

  lemma {:induction false} TracksRemove(ledger: map<int, Grant>, a: seq<(nat, nat)>, p: nat, n: nat, b: seq<(nat, nat)>)
    requires Tracks(ledger, a + [(p, n)] + b) && Apart(a + [(p, n)] + b)
    ensures Tracks(ledger - {p}, a + b)
  {
    var ps := a + b;
    forall j | 0 <= j < |ps| ensures ps[j].0 != p && ps[j].0 in ledger && ledger[ps[j].0].size == ps[j].1 {
      Remains(ledger, a, p, n, b, j);
    }
    forall q | q in ledger && q != p ensures exists j :: 0 <= j < |ps| && ps[j].0 == q {
      StillListed(ledger, a, p, n, b, q);
    }
  }

  lemma {:induction false} Remains(ledger: map<int, Grant>, a: seq<(nat, nat)>, p: nat, n: nat, b: seq<(nat, nat)>, j: nat)
    requires Tracks(ledger, a + [(p, n)] + b) && Apart(a + [(p, n)] + b) && j < |a + b|
    ensures var x := (a + b)[j]; x.0 != p && x.0 in ledger && ledger[x.0].size == x.1
  {
    Beside(a, (p, n), b, |a|);
    Beside(a, (p, n), b, if j < |a| then j else j + 1);
  }

  lemma {:induction false} StillListed(ledger: map<int, Grant>, a: seq<(nat, nat)>, p: nat, n: nat, b: seq<(nat, nat)>, q: int)
    requires Tracks(ledger, a + [(p, n)] + b) && q in ledger && q != p
    ensures exists j :: 0 <= j < |a + b| && (a + b)[j].0 == q
  {
    var k :| 0 <= k < |a + [(p, n)] + b| && (a + [(p, n)] + b)[k].0 == q;
    Beside(a, (p, n), b, k);
  }

  /** Payload `(p, n)` belongs to block `i`. */
  ghost predicate BlockOf(bs: seq<Block>, off: nat, i: nat, p: int, n: nat) {
    i < |bs| && !bs[i].free && bs[i].size == n && p == off + Extent(bs[..i]) + HEADER
  }

  lemma {:induction false} BlockOfTail(bs: seq<Block>, off: nat, i: nat, p: int, n: nat)
    requires bs != [] && BlockOf(bs[1..], off + HEADER + bs[0].size, i, p, n)
    ensures BlockOf(bs, off, i + 1, p, n)
  {
    assert bs[..i + 1] == [bs[0]] + bs[1..][..i];
    assert bs[..i + 1][1..] == bs[1..][..i];
  }

  /** A live payload is that of the first block, or one of the rest. */
  lemma {:induction false} LiveTail(bs: seq<Block>, off: nat, j: nat, p: int, n: nat)
    requires j < |Live(bs, off)| && Live(bs, off)[j] == (p, n)
    ensures bs != []
    ensures var next, k := off + HEADER + bs[0].size, if bs[0].free then j as int else j - 1;
      if k < 0 then !bs[0].free && p == off + HEADER && n == bs[0].size
      else k < |Live(bs[1..], next)| && Live(bs[1..], next)[k] == (p, n) && p > off + HEADER
  {
    LiveCons(bs, off);
    LiveDisjoint(bs[1..], off + HEADER + bs[0].size);
  }

  /** A live address is found at the block that it belongs to. */
  lemma {:induction false} LocateLive(bs: seq<Block>, off: nat, j: nat, p: int, n: nat)
    requires j < |Live(bs, off)| && Live(bs, off)[j] == (p, n)
    ensures BlockOf(bs, off, Locate(bs, off, p), p, n)
  {
    hide Live, Extent;
    LiveTail(bs, off, j, p, n);
    var next, k := off + HEADER + bs[0].size, if bs[0].free then j as int else j - 1;
    if k < 0 {
      BlockOfHead(bs, off);
    } else {
      hide BlockOf;
      LocateLive(bs[1..], next, k, p, n);
      BlockOfTail(bs, off, Locate(bs[1..], next, p), p, n);
    }
  }

  lemma {:induction false} BlockOfHead(bs: seq<Block>, off: nat)
    requires bs != [] && !bs[0].free
    ensures BlockOf(bs, off, 0, off + HEADER, bs[0].size)
  {
    assert bs[..0] == [];
  }

  lemma {:induction false} Located(s: State, p: int)
    requires Sound(s) && p in s.ledger
    ensures var i := Locate(s.blocks, 0, p);
      i < |s.blocks| && !s.blocks[i].free && s.blocks[i].size == s.ledger[p].size && p == Extent(s.blocks[..i]) + HEADER
  {
    var ps := Live(s.blocks, 0);
    var j :| 0 <= j < |ps| && ps[j].0 == p;
    LocateLive(s.blocks, 0, j, p, ps[j].1);
  }

  lemma {:induction false} AllocSound(s: State, request: nat)
    requires Sound(s) && request < TWO32
    ensures Sound(Next(s, Alloc(request)))
    ensures Kmalloc(s.blocks, request).1 !in s.ledger
  {
    var (bs, p) := Kmalloc(s.blocks, request);
    KmallocKeeps(s.blocks, request);
    if p == NIL {
      NilNotLive(s);
    } else {
      var before, n, after := KmallocLive(s.blocks, request);
      LiveDisjoint(bs, 0);
      RoundedCovers(request);
      hide Live, Tracks, Apart, Kmalloc, HeapInv, Rounded;
      TracksInsert(s.ledger, before, p, Grant(request, n), after);
    }
  }

  lemma {:induction false} NilNotLive(s: State)
    requires Sound(s)
    ensures NIL !in s.ledger
  {
    if NIL in s.ledger {
      Located(s, NIL);
    }
  }

  lemma {:induction false} FreeTracks(bs: seq<Block>, i: nat, ledger: map<int, Grant>, p: nat)
    requires i < |bs| && !bs[i].free && p == Extent(bs[..i]) + HEADER && Tracks(ledger, Live(bs, 0))
    ensures Tracks(ledger - {p}, Live(Kfree(bs, i), 0))
  {
    var a, x, b := bs[..i], bs[i], bs[i + 1..];
    assert bs == a + [x] + b;
    hide Live, Extent, Kfree, Tracks, Apart;
    KfreeLive(a, x, b);
    LiveDisjoint(bs, 0);
    TracksRemove(ledger, Live(a, 0), p, x.size, Live(b, Extent(a) + HEADER + x.size));
  }

  lemma {:induction false} FreeSound(s: State, p: int)
    requires Sound(s)
    ensures Sound(Next(s, Free(p)))
  {
    if p in s.ledger {
      hide Live, Extent, Kfree, Tracks, HeapInv;
      Located(s, p);
      KfreeKeeps(s.blocks, Locate(s.blocks, 0, p));
      FreeTracks(s.blocks, Locate(s.blocks, 0, p), s.ledger, p);
    }
  }

  // ---------------------------------------------------------------- theorems

  /** After any calls the blocks tile the heap with at most one adjacent free pair, and the
      live payloads are exactly those granted and not yet freed, none below its request. */
  lemma {:induction false} RunSound(calls: seq<Call>)
    requires Words(calls)
    ensures Sound(Run(calls))
  {
    if calls == [] {
      InitialInv();
      LiveCons(Initial(), 0);
      LiveNone(HEADER + Initial()[0].size);
    } else {
      var before, call := calls[..|calls| - 1], calls[|calls| - 1];
      RunSound(before);
      match call
      case Alloc(request) => AllocSound(Run(before), request);
      case Free(p) => FreeSound(Run(before), p);
    }
  }

  /** What each call does to the ledger: kmalloc adds the address it returns, with the request,
      and kfree takes its pointer away. */
  lemma {:induction false} LedgerStep(calls: seq<Call>, call: Call)
    requires Words(calls + [call])
    ensures var s, r := Run(calls), Run(calls + [call]);
      && (call.Free? ==> r.ledger == s.ledger - {call.ptr})
      && (call.Alloc? && Kmalloc(s.blocks, call.request).1 == NIL ==> r.ledger == s.ledger)
      && (call.Alloc? && Kmalloc(s.blocks, call.request).1 != NIL ==>
            var p := Kmalloc(s.blocks, call.request).1;
            && p !in s.ledger && r.ledger.Keys == s.ledger.Keys + {p} && r.ledger[p].request == call.request
            && Rounded(call.request) <= r.ledger[p].size <= Rounded(call.request) + HEADER)
  {
    assert (calls + [call])[..|calls|] == calls && (calls + [call])[|calls|] == call;
    WordsPrefix(calls, call);
    RunSound(calls);
    var s := Run(calls);
    match call
    case Alloc(request) =>
      AllocSound(s, request);
      if Kmalloc(s.blocks, request).1 != NIL { var _, _, _ := KmallocLive(s.blocks, request); }
    case Free(p) =>
      if p in s.ledger { Located(s, p); }
  }

  lemma {:induction false} WordsPrefix(calls: seq<Call>, call: Call)
    requires Words(calls + [call])
    ensures Words(calls) && (call.Alloc? ==> call.request < TWO32)
  {
    assert (calls + [call])[|calls|] == call;
    forall i | 0 <= i < |calls| && calls[i].Alloc? ensures calls[i].request < TWO32 {
      assert (calls + [call])[i] == calls[i];
    }
  }

  /** Two live payloads never overlap, and none leaves the heap. */
  lemma {:induction false} GrantsApart(calls: seq<Call>, p: int, q: int)
    requires Words(calls) && p in Run(calls).ledger && q in Run(calls).ledger
    ensures var ledger := Run(calls).ledger;
      && HEADER <= p && p + ledger[p].size <= HEAP_SIZE
      && (p < q ==> p + ledger[p].size + HEADER <= q)
  {
    RunSound(calls);
    var s := Run(calls);
    var ps := Live(s.blocks, 0);
    LiveDisjoint(s.blocks, 0);
    var i :| 0 <= i < |ps| && ps[i].0 == p;
    var j :| 0 <= j < |ps| && ps[j].0 == q;
  }

  /** A live payload is neither moved nor resized by any call but its own kfree. */
  lemma {:induction false} GrantStays(calls: seq<Call>, call: Call, p: int)
    requires Words(calls + [call]) && p in Run(calls).ledger && call != Free(p)
    ensures p in Run(calls + [call]).ledger && Run(calls + [call]).ledger[p] == Run(calls).ledger[p]
  {
    assert (calls + [call])[..|calls|] == calls && (calls + [call])[|calls|] == call;
    WordsPrefix(calls, call);
    RunSound(calls);
    if call.Alloc? {
      AllocSound(Run(calls), call.request);
    }
  }

  /** Every kfree is given NULL or a pointer that is live at that point. */
  ghost predicate Legal(calls: seq<Call>) {
    forall i :: 0 <= i < |calls| && calls[i].Free? && calls[i].ptr != NIL ==> calls[i].ptr in Run(calls[..i]).ledger
  }

  method Perform(h: Heap, call: Call, ghost s: State) returns (ptr: int)
    requires h.Valid() && h.blocks == s.blocks && Sound(s)
    requires (call.Alloc? ==> call.request < TWO32) && (call.Free? && call.ptr != NIL ==> call.ptr in s.ledger)
    modifies h, h.heap
    ensures h.Valid() && h.blocks == Next(s, call).blocks
    ensures call.Alloc? ==> ptr == Kmalloc(s.blocks, call.request).1
  {
    ptr := NIL;
    match call {
      case Alloc(request) =>
        ptr := h.Kmalloc(request);
      case Free(p) =>
        if p == NIL {
          NilNotLive(s);
        } else {
          Located(s, p);
        }
        h.Kfree(p, Locate(s.blocks, 0, p));
    }
  }

  /** Every run of the allocator in place ends in the blocks of the model's run. */
  method Execute(calls: seq<Call>) returns (h: Heap)
    requires Words(calls) && Legal(calls)
    ensures h.Valid() && h.blocks == Run(calls).blocks && Sound(Run(calls))
  {
    h := new Heap();
    assert calls[..0] == [];
    for i := 0 to |calls|
      invariant h.Valid() && fresh(h) && fresh(h.heap) && h.blocks == Run(calls[..i]).blocks
    {
      assert calls[..i + 1][..i] == calls[..i];
      RunSound(calls[..i]);
      var _ := Perform(h, calls[i], Run(calls[..i]));
    }
    assert calls[..|calls|] == calls;
    RunSound(calls);
  }
}
