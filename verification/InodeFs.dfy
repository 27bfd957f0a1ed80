/** inode.c: the block and inode layer in place. */
module InodeFs {
  import opened InodeModel
  import opened Bitmaps

  /** The set bits are exactly the members of `used`. */
  ghost predicate BitsMatch(words: seq<Word>, used: set<int>) {
    forall b: nat :: b < 32 * |words| ==> (IsSet(words, b) <==> b in used)
  }

  lemma {:induction false} OneFewer(owner: Owners, b: int)
    ensures (owner - {b}).Keys + {} == owner.Keys - {b} && owner.Keys + {} == owner.Keys
    ensures |owner.Keys - {b}| == |owner.Keys| - if b in owner then 1 else 0
  {
    if b in owner {
      assert owner.Keys == (owner.Keys - {b}) + {b};
    } else {
      assert owner.Keys - {b} == owner.Keys;
    }
  }

  /** The first clear bit of an exact bitmap is the first inode not in use. */
  lemma {:induction false} FirstFree(inodes: seq<Inode>, words: seq<Word>, a: int)
    requires |inodes| == MAX_INODES == 32 * |words| && BitsMatch(words, UsedInodes(inodes)) && -1 <= a < MAX_INODES
    requires forall b: nat :: b < (if a == -1 then MAX_INODES else a) ==> IsSet(words, b)
    requires a == -1 || !IsSet(words, a)
    ensures a == -1 ==> forall c :: 0 <= c < MAX_INODES ==> inodes[c].inUse
    ensures a != -1 ==> !inodes[a].inUse && forall c :: 0 <= c < a ==> inodes[c].inUse
  {
    forall c: nat | c < (if a == -1 then MAX_INODES else a) ensures inodes[c].inUse {
      assert IsSet(words, c);
    }
  }

  lemma {:induction false} NoneYet(d0: Disk, d: Disk, a: int, p: nat, data: seq<Byte>)
    requires Rounds(d0, d, a, p, data) && data == []
    ensures d == d0
  {
  }

  /** The first `n` bytes are stored; a block was free if the first of them needed one. */
  ghost predicate Underway(d0: Disk, owner0: Owners, d: Disk, owner: Owners, a: int, p: nat, data: seq<Byte>, n: nat) {
    && n <= |data| && Rounds(d0, d, a, p, data[..n]) && (n == 0 ==> owner == owner0)
    && d0.inodes[a].inUse && Dense(d0.inodes[a])
    && (n > 0 && NeedsBlock(d0.inodes[a].direct, p) ==> Room(owner0))
  }

  lemma {:induction false} UnderwayStart(d: Disk, owner: Owners, a: int, p: nat, data: seq<Byte>)
    requires HasInode(d, a) && Shape(d.inodes[a]) && d.inodes[a].inUse && Dense(d.inodes[a])
    ensures Underway(d, owner, d, owner, a, p, data, 0)
  {
    NoRounds(d, a, p);
    assert data[..0] == [];
  }

  lemma {:induction false} UnderwayStep(d0: Disk, owner0: Owners, d: Disk, o: Owners, d': Disk, o': Owners,
                                        a: int, p: nat, data: seq<Byte>, w: nat, m: nat)
    requires Underway(d0, owner0, d, o, a, p, data, w) && 0 < m && w + m <= |data|
    requires Round(d, d', a, p + w, data[w..][..m])
    requires NeedsBlock(d.inodes[a].direct, p + w) ==> Room(o)
    ensures Underway(d0, owner0, d', o', a, p, data, w + m)
  {
    OneMoreRound(d0, d, d', a, p, data[..w], data[w..][..m]);
    assert data[..w] + data[w..][..m] == data[..w + m];
    if w == 0 { NoneYet(d0, d, a, p, data[..w]); }
  }

  /** What inode_write does to inode `a` when it stores `n` bytes of `data` at `p`. */
  ghost predicate Wrote(d0: Disk, owner0: Owners, d: Disk, owner: Owners, a: int, p: nat, data: seq<Byte>, n: nat) {
    && HasInode(d0, a) && HasInode(d, a) && Shape(d0.inodes[a]) && n <= |data|
    && OthersSame(d0.inodes, d0.st, d.inodes, d.st, a)
    && d.inodes[a].inUse && d.inodes[a].size == Max(d0.inodes[a].size, p + n) && d.inodes[a].kind == d0.inodes[a].kind
    && (FsInv(d.inodes, owner, NIL) <==> Fits(d0.inodes[a], p, data, owner0))
    && (Fits(d0.inodes[a], p, data, owner0) ==>
          Shape(d.inodes[a]) && Contents(d.inodes[a], d.st) == After(d0.inodes[a], d0.st, p, data[..n]))
    && (n < |data| ==> Stuck(p + n, d.inodes, a, owner))
  }

  /** What the loop of inode_write and the update of the size come to. */
  lemma {:induction false} WriteEnd(d0: Disk, d: Disk, owner0: Owners, owner: Owners, a: int, p: nat,
                                    data: seq<Byte>, n: nat, inodes: seq<Inode>)
    requires Underway(d0, owner0, d, owner, a, p, data, n) && FsInv(d.inodes, owner, a)
    requires n < |data| ==> Stuck(p + n, d.inodes, a, owner)
    requires inodes == d.inodes[a := d.inodes[a].(size := Max(d.inodes[a].size, p + n))]
    ensures Wrote(d0, owner0, Disk(inodes, d.st), owner, a, p, data, n)
  {
    EndBeside(d0, d, a, data[..n], p, inodes);
    var bc := d0.inodes[a].blockCount;
    if p / 512 == bc {
      StoresIff(d0.inodes[a], p, data, n, owner0);
    }
    if p <= BLOCK * bc || (p / 512 == bc && n > 0) {
      EndProgress(d0, d, a, p, data[..n]);
      GoodEnd(d0, d, owner, a, p, data[..n], inodes);
    } else {
      BadEnd(d0, d, a, p, data[..n], inodes);
      if FsInv(inodes, owner, NIL) {
        InUseShaped(inodes, owner, a);
      }
    }
  }

  lemma {:induction false} EndBeside(d0: Disk, d: Disk, a: int, data: seq<Byte>, p: nat, inodes: seq<Inode>)
    requires Rounds(d0, d, a, p, data)
    requires inodes == d.inodes[a := d.inodes[a].(size := Max(d.inodes[a].size, p + |data|))]
    ensures OthersSame(d0.inodes, d0.st, inodes, d.st, a)
    ensures inodes[a].inUse == d0.inodes[a].inUse && inodes[a].size == Max(d0.inodes[a].size, p + |data|)
    ensures inodes[a].kind == d0.inodes[a].kind
  {
    OthersKept(d.inodes, d.st, a, inodes[a]);
    OthersTrans(d0.inodes, d0.st, d.inodes, d.st, inodes, d.st, a);
  }

  lemma {:induction false} EndProgress(d0: Disk, d: Disk, a: int, p: nat, data: seq<Byte>)
    requires Rounds(d0, d, a, p, data)
    requires p <= BLOCK * d0.inodes[a].blockCount || (p / 512 == d0.inodes[a].blockCount && data != [])
    ensures Progress(d0, d, a, p, data) && d.inodes[a].inUse == d0.inodes[a].inUse && d.inodes[a].size == d0.inodes[a].size
  {
    if data == [] {
      NoRounds(d0, a, p);
    } else {
      assert p / 512 <= d0.inodes[a].blockCount;
    }
  }

  class FileSystem {
    const inodes: array<Inode>
    const storage: array<Byte>
    const blockBitmap: array<Word>
    const inodeBitmap: array<Word>
    var freeInodes: int
    var freeBlocks: int
    ghost var owner: Owners

    /** Sizes of the tables; they never change. */
    ghost predicate Layout()
      reads {}
    {
      && inodes.Length == MAX_INODES && storage.Length == STORAGE
      && blockBitmap.Length == MAX_BLOCKS / 32 && inodeBitmap.Length == MAX_INODES / 32
      && blockBitmap != inodeBitmap
    }

    /** The block bitmap and the free count agree with the owners and the `loose` blocks. */
    ghost predicate BlocksValid(loose: set<int>)
      reads this, blockBitmap
    {
      && Layout() && BitsMatch(blockBitmap[..], owner.Keys + loose)
      && freeBlocks == MAX_BLOCKS - |owner.Keys + loose|
    }

    ghost predicate InodesValid()
      reads this, inodes, inodeBitmap
    {
      && Layout() && BitsMatch(inodeBitmap[..], UsedInodes(inodes[..]))
      && freeInodes == MAX_INODES - |UsedInodes(inodes[..])|
    }

    /** Blocks have one owner each, the bitmaps are exact, and every file is dense. */
    ghost predicate Valid()
      reads this, inodes, blockBitmap, inodeBitmap
    {
      BlocksValid({}) && InodesValid() && FsInv(inodes[..], owner, NIL)
    }

    /** The contents of the file at inode `a`. */
    ghost function File(a: int): seq<Byte>
      requires inodes.Length == MAX_INODES && storage.Length == STORAGE
      requires 0 <= a < MAX_INODES && Shape(inodes[a])
      reads inodes, storage
    {
      Contents(inodes[a], storage[..])
    }

    /** inode_fs_init. */
    constructor ()
      ensures Valid() && fresh(inodes) && fresh(storage) && fresh(blockBitmap) && fresh(inodeBitmap)
      ensures owner == map[] && UsedInodes(inodes[..]) == {}
    {
      inodes := new Inode[MAX_INODES](i => Inode(false, 0, 0, 0, []));
      storage := new Byte[STORAGE];
      blockBitmap := new Word[MAX_BLOCKS / 32](i => {});
      inodeBitmap := new Word[MAX_INODES / 32](i => {});
      freeInodes, freeBlocks, owner := MAX_INODES, MAX_BLOCKS, map[];
      new;
      Bitmaps.Init(blockBitmap);
      Bitmaps.Init(inodeBitmap);
      assert UsedInodes(inodes[..]) == {};
    }

    /** block_alloc: a free block, zeroed, or 0 when every block but the reserved one is taken. */
    method BlockAlloc() returns (b: nat)
      requires BlocksValid({})
      requires storage.Length == STORAGE
      modifies this`freeBlocks, blockBitmap, storage
      ensures b == 0 ==> BlocksValid({}) && storage[..] == old(storage[..])
      ensures b == 0 <==> !Room(owner)
      ensures b != 0 ==> BlocksValid({b}) && 1 <= b < MAX_BLOCKS && b !in owner && forall c :: 1 <= c < b ==> c in owner
      ensures b != 0 ==> OnlyBlock(old(storage[..]), storage[..], b)
      ensures b != 0 ==> forall p :: b * 512 <= p < b * 512 + 512 ==> storage[..][p] == 0
    {
      var i := FindFree(blockBitmap, 1, MAX_BLOCKS);
      if i == -1 { return 0; }
      assert i !in owner;
      Bitmaps.Set(blockBitmap, i);
      freeBlocks := freeBlocks - 1;
      Memset(i);
      b := i;
      assert owner.Keys + {b} == (owner.Keys + {}) + {b};
    }

    /** Clears a block. */
    method Memset(b: nat)
      requires storage.Length == STORAGE && 1 <= b < MAX_BLOCKS
      modifies storage
      ensures OnlyBlock(old(storage[..]), storage[..], b)
      ensures forall p :: b * 512 <= p < b * 512 + 512 ==> storage[..][p] == 0
    {
      for i := 0 to 512
        invariant forall p :: 0 <= p < STORAGE && !(b * 512 <= p < b * 512 + i) ==> storage[p] == old(storage[p])
        invariant forall p :: b * 512 <= p < b * 512 + i ==> storage[p] == 0
      {
        storage[b * 512 + i] := 0;
      }
    }

    /** block_free: an owned block loses its owner; a number that names no block is ignored.
        Freeing a block that nobody owns makes the free count wrong. */
    method BlockFree(b: nat)
      requires BlocksValid({})
      modifies this`freeBlocks, this`owner, blockBitmap
      ensures owner == if 1 <= b < MAX_BLOCKS then old(owner) - {b} else old(owner)
      ensures freeBlocks == old(freeBlocks) + if 1 <= b < MAX_BLOCKS then 1 else 0
      ensures BlocksValid({}) <==> b in old(owner) || b == 0 || b >= MAX_BLOCKS
    {
      if b == 0 || b >= MAX_BLOCKS { return; }
      Bitmaps.Clear(blockBitmap, b);
      freeBlocks := freeBlocks + 1;
      owner := owner - {b};
      OneFewer(old(owner), b);
    }

    /** Inode `a` is in use and may be in the middle of a write. */
    ghost predicate Busy(a: int)
      reads this, inodes, blockBitmap, inodeBitmap
    {
      && BlocksValid({}) && InodesValid() && FsInv(inodes[..], owner, a)
      && 0 <= a < MAX_INODES && inodes[a].inUse && |inodes[a].direct| == DIRECT
    }

    /** Rewrites an inode without changing whether it is in use. */
    method SetInode(a: nat, n: Inode)
      requires InodesValid() && a < MAX_INODES && n.inUse == inodes[a].inUse
      modifies inodes
      ensures InodesValid() && inodes[..] == old(inodes[..])[a := n]
    {
      UsedChange(inodes[..], a, n);
      inodes[a] := n;
      assert inodes[..] == old(inodes[..])[a := n];
    }

    ghost function Now(): Disk
      reads inodes, storage
    {
      Disk(inodes[..], storage[..])
    }

    /** The allocation branch of inode_write. */
    method EnsureBlock(a: int, i: nat) returns (ok: bool)
      requires Busy(a) && i < DIRECT
      modifies this`freeBlocks, this`owner, inodes, blockBitmap, storage
      ensures Busy(a)
      ensures ok ==> Ensured(old(Now()), Now(), a, i)
      ensures ok <==> old(inodes[a].direct[i]) != 0 || Room(old(owner))
      ensures !ok ==> Now() == old(Now()) && owner == old(owner)
    {
      ok := true;
      BusyMeans(a);
      if inodes[a].direct[i] == 0 {
        var b := BlockAlloc();
        ok := b != 0;
        if ok {
          EnsuredByFilling(old(Now()), owner, a, i, b, storage[..]);
          FillKeeps(inodes[..], owner, a, i, b);
          Adopt(a, i, b);
        }
      } else {
        EnsuredAlready(Now(), a, i);
      }
    }

    lemma {:induction false} BusyMeans(a: int)
      requires Busy(a)
      ensures HasInode(Now(), a) && BlocksValid({}) && InodesValid() && FsInv(inodes[..], owner, a)
      ensures inodes.Length == MAX_INODES && storage.Length == STORAGE && 0 <= a < MAX_INODES
      ensures inodes[a].inUse && |inodes[a].direct| == DIRECT && inodes[..][a] == inodes[a]
    {
    }

    /** Enters a fresh block into an empty slot. */
    method Adopt(a: nat, i: nat, b: nat)
      requires BlocksValid({b}) && InodesValid() && a < MAX_INODES && i < |inodes[a].direct|
      modifies this`owner, inodes
      ensures BlocksValid({}) && InodesValid() && owner == old(owner)[b := (a as int, i as int)]
      ensures inodes[..] == old(inodes[..])[a := Filled(old(inodes[a]), i, b)]
    {
      ghost var bs := owner.Keys + {b};
      owner := owner[b := (a, i)];
      SetInode(a, Filled(inodes[a], i, b));
      assert owner.Keys + {} == bs;
    }

    /** The copying loop of inode_write. */
    method CopyIn(b: nat, o: nat, data: seq<Byte>)
      requires storage.Length == STORAGE && 1 <= b < MAX_BLOCKS && o + |data| <= 512
      modifies storage
      ensures storage[..] == Patch(old(storage[..]), b * 512 + o, data)
    {
      var p := b * 512 + o;
      for i := 0 to |data|
        invariant forall j :: 0 <= j < STORAGE && !(p <= j < p + i) ==> storage[j] == old(storage[j])
        invariant forall j :: p <= j < p + i ==> storage[j] == data[j - p]
      {
        storage[p + i] := data[i];
      }
      assert forall j :: 0 <= j < STORAGE ==> storage[..][j] == Patch(old(storage[..]), p, data)[j];
    }

    /** Overwrites part of the block in slot `i`. */
    method CopyBlock(a: int, i: nat, o: nat, data: seq<Byte>)
      requires Busy(a) && i < DIRECT && inodes[a].direct[i] != 0 && o + |data| <= 512
      modifies storage
      ensures Busy(a) && Stored(old(Now()), Now(), a, i, o, data)
    {
      BusyMeans(a);
      hide Busy, FsInv, Stored, BlocksValid, InodesValid, Patch, HasInode;
      ghost var d := Now();
      StoredByCopying(d, owner, a, i, o, data);
      var b := inodes[a].direct[i];
      CopyIn(b, o, data);
      assert Now() == Disk(d.inodes, Patch(d.st, b * 512 + o, data));
    }

    /** One round of inode_write: `more` is false where the source leaves the loop. */
    method WriteRound(a: int, p: nat, data: seq<Byte>) returns (more: bool, m: nat)
      requires Busy(a) && data != []
      modifies this`freeBlocks, this`owner, inodes, blockBitmap, storage
      ensures Busy(a)
      ensures more ==> 0 < m <= |data| && Round(old(Now()), Now(), a, p, data[..m])
      ensures more && NeedsBlock(old(Now()).inodes[a].direct, p) ==> Room(old(owner))
      ensures !more ==> Now() == old(Now()) && owner == old(owner) && Stuck(p, Now().inodes, a, owner)
    {
      var i := p / 512;
      var o := p % 512;
      m := InBlock(p, |data|);
      more := false;
      if i < DIRECT {
        more := EnsureBlock(a, i);
        if more {
          ghost var d := Now();
          CopyBlock(a, i, o, data[..m]);
          RoundOf(old(Now()), d, Now(), a, p, data[..m]);
        }
      }
    }

    /** The loop of inode_write. */
    method WriteLoop(a: int, data: seq<Byte>, offset: nat, ghost d0: Disk, ghost owner0: Owners) returns (n: nat)
      requires Busy(a) && Underway(d0, owner0, Now(), owner, a, offset, data, 0)
      modifies this`freeBlocks, this`owner, inodes, blockBitmap, storage
      ensures Busy(a) && n <= |data| && Underway(d0, owner0, Now(), owner, a, offset, data, n)
      ensures n < |data| ==> Stuck(offset + n, Now().inodes, a, owner)
    {
      hide Busy, Underway, Stuck;
      n := 0;
      var more := true;
      while more && n < |data|
        invariant Busy(a) && n <= |data| && Underway(d0, owner0, Now(), owner, a, offset, data, n)
        invariant !more ==> n < |data| && Stuck(offset + n, Now().inodes, a, owner)
        decreases more, |data| - n
      {
        more, n := WriteStep(a, data, offset, n, d0, owner0);
      }
    }

    /** One round, added to those made since `d0`. */
    method WriteStep(a: int, data: seq<Byte>, offset: nat, w: nat, ghost d0: Disk, ghost owner0: Owners)
      returns (more: bool, w': nat)
      requires Busy(a) && w < |data| && Underway(d0, owner0, Now(), owner, a, offset, data, w)
      modifies this`freeBlocks, this`owner, inodes, blockBitmap, storage
      ensures Busy(a) && w <= w' <= |data| && (more <==> w < w')
      ensures Underway(d0, owner0, Now(), owner, a, offset, data, w')
      ensures !more ==> Stuck(offset + w, Now().inodes, a, owner)
    {
      hide Underway, Round, Busy, Stuck;
      var m;
      ghost var d, o := Now(), owner;
      more, m := WriteRound(a, offset + w, data[w..]);
      w' := w;
      if more {
        w' := w + m;
        UnderwayStep(d0, owner0, d, o, Now(), owner, a, offset, data, w, m);
      }
    }

    /** inode_write at any offset.  The invariant is kept exactly when the write fits; then the
        bytes written replace or extend those of the file.  The count falls short only when
        no block is left for the next byte, and no other file changes. */
    method Write(a: int, data: seq<Byte>, offset: nat) returns (n: nat)
      requires Valid() && (a != NIL ==> 0 <= a < MAX_INODES && inodes[a].inUse)
      modifies this`freeBlocks, this`owner, inodes, blockBitmap, storage
      ensures n <= |data| && BlocksValid({}) && InodesValid()
      ensures a == NIL ==> n == 0 && Valid() && Now() == old(Now())
      ensures a != NIL ==> OthersSame(old(inodes[..]), old(storage[..]), inodes[..], storage[..], a)
      ensures a != NIL ==> inodes[a].inUse && inodes[a].size == (if offset + n > old(inodes[a].size) then offset + n else old(inodes[a].size))
      ensures a != NIL ==> inodes[a].kind == old(inodes[a].kind)
      ensures a != NIL ==> (Valid() <==> Fits(old(inodes[a]), offset, data, old(owner)))
      ensures a != NIL && Fits(old(inodes[a]), offset, data, old(owner)) ==>
        Shape(inodes[a]) && File(a) == After(old(inodes[a]), old(storage[..]), offset, data[..n])
      ensures a != NIL && n < |data| ==> Stuck(offset + n, inodes[..], a, owner)
    {
      if a == NIL { return 0; }
      StartWrite(inodes[..], owner, a);
      BeginWrite(a, data, offset);
      n := WriteLoop(a, data, offset, Now(), owner);
      FinishWrite(a, data, offset, n, old(Now()), old(owner));
    }

    lemma {:induction false} BeginWrite(a: int, data: seq<Byte>, offset: nat)
      requires Busy(a) && Shape(inodes[a]) && Dense(inodes[a])
      ensures Underway(Now(), owner, Now(), owner, a, offset, data, 0)
    {
      UnderwayStart(Now(), owner, a, offset, data);
    }

    /** The end of inode_write, after the loop. */
    method FinishWrite(a: int, data: seq<Byte>, offset: nat, n: nat, ghost d0: Disk, ghost owner0: Owners)
      requires Busy(a) && Underway(d0, owner0, Now(), owner, a, offset, data, n)
      requires n < |data| ==> Stuck(offset + n, Now().inodes, a, owner)
      modifies inodes
      ensures BlocksValid({}) && InodesValid() && Wrote(d0, owner0, Now(), owner, a, offset, data, n)
    {
      BusyMeans(a);
      hide Busy, FsInv, Underway, Wrote, Stuck, BlocksValid, InodesValid;
      ghost var d := Now();
      Extend(a, offset + n, d.inodes);
      WriteEnd(d0, d, owner0, owner, a, offset, data, n, inodes[..]);
    }

    /** The update of the size at the end of inode_write. */
    method Extend(a: int, end: nat, ghost was: seq<Inode>)
      requires InodesValid() && 0 <= a < MAX_INODES && inodes[..] == was
      modifies inodes
      ensures InodesValid() && inodes[..] == was[a := was[a].(size := Max(was[a].size, end))]
    {
      if end > inodes[a].size {
        SetInode(a, inodes[a].(size := end));
      }
      assert was[a].size == Max(was[a].size, end) ==> was[a := was[a]] == was;
    }

    /** inode_read: `n` bytes of the file's blocks arrive at the front of the buffer; they
        lie inside the file whenever `offset + size` does not wrap. */
    method Read(a: int, buffer: array<Byte>, offset: nat, size: nat) returns (n: nat)
      requires Valid() && (a != NIL ==> 0 <= a < MAX_INODES && inodes[a].inUse)
      requires size < 0x1_0000_0000 && offset < 0x1_0000_0000 && buffer != storage
      requires a != NIL ==> ReadCount(inodes[a], offset, size) <= buffer.Length
      modifies buffer
      ensures n <= size && (a == NIL ==> n == 0)
      ensures forall k :: n <= k < buffer.Length ==> buffer[k] == old(buffer[k])
      ensures a != NIL ==> n == ReadCount(old(inodes[a]), offset, size)
      ensures a != NIL ==> Delivered(old(Raw(inodes[a], storage[..])), offset, buffer[..n])
      ensures a != NIL && offset + size >= 0x1_0000_0000 && offset < old(inodes[a].size) ==>
        n == BLOCK * old(inodes[a].blockCount) - offset
      ensures a != NIL && offset + size < 0x1_0000_0000 ==>
        && n == (if offset >= |old(File(a))| then 0
                 else if offset + size <= |old(File(a))| then size else |old(File(a))| - offset)
        && Delivered(old(File(a)), offset, buffer[..n])
    {
      if a == NIL || offset >= inodes[a].size { return 0; }
      n := ReadClipped(inodes[a], buffer, offset, size);
      ReadClippedIff(old(inodes[a]), offset, size);
      if offset + size < 0x1_0000_0000 {
        DeliveredPrefix(old(Raw(inodes[a], storage[..])), old(inodes[a].size), offset, buffer[..n]);
      }
    }

    method ReadClipped(node: Inode, buffer: array<Byte>, offset: nat, size: nat) returns (n: nat)
      requires Layout() && Shape(node) && offset < node.size
      requires ReadCount(node, offset, size) <= buffer.Length && buffer != storage
      modifies buffer
      ensures n <= size && n == ReadCount(node, offset, size)
      ensures forall k :: n <= k < buffer.Length ==> buffer[k] == old(buffer[k])
      ensures Delivered(Raw(node, old(storage[..])), offset, buffer[..n])
    {
      var want := size;
      if (offset + size) % 0x1_0000_0000 > node.size {
        want := node.size - offset;
      }
      n := ReadLoop(node, buffer, offset, want);
    }

    /** The loop of inode_read. */
    method ReadLoop(node: Inode, buffer: array<Byte>, offset: nat, want: nat) returns (n: nat)
      requires Layout() && Shape(node) && offset <= BLOCK * node.blockCount
      requires buffer != storage
      requires (if offset + want <= BLOCK * node.blockCount then want else BLOCK * node.blockCount - offset) <= buffer.Length
      modifies buffer
      ensures n == if offset + want <= BLOCK * node.blockCount then want else BLOCK * node.blockCount - offset
      ensures forall k :: n <= k < buffer.Length ==> buffer[k] == old(buffer[k])
      ensures Delivered(Raw(node, old(storage[..])), offset, buffer[..n])
    {
      ghost var raw := Raw(node, storage[..]);
      n := 0;
      while n < want
        invariant n <= want && offset + n <= BLOCK * node.blockCount
        invariant storage[..] == old(storage[..])
        invariant forall k :: 0 <= k < n ==> buffer[k] == raw[offset + k]
        invariant forall k :: n <= k < buffer.Length ==> buffer[k] == old(buffer[k])
      {
        var i := (offset + n) / 512;
        var o := (offset + n) % 512;
        var m := 512 - o;
        if m > want - n {
          m := want - n;
        }
        if i >= DIRECT || node.direct[i] == 0 { break; }
        CopyOut(node, buffer, i, o, n, m);
        n := n + m;
      }
    }

    /** Copies part of the block in slot `i` to the buffer. */
    method CopyOut(node: Inode, buffer: array<Byte>, i: nat, o: nat, at: nat, m: nat)
      requires Layout() && Shape(node) && i < node.blockCount && o + m <= 512
      requires at + m <= buffer.Length && buffer != storage
      modifies buffer
      ensures forall k :: 0 <= k < buffer.Length && !(at <= k < at + m) ==> buffer[k] == old(buffer[k])
      ensures forall k :: at <= k < at + m ==> buffer[k] == Raw(node, old(storage[..]))[i * 512 + o + k - at]
    {
      var p := node.direct[i] * 512 + o;
      for j := 0 to m
        invariant forall k :: 0 <= k < buffer.Length && !(at <= k < at + j) ==> buffer[k] == old(buffer[k])
        invariant forall k :: at <= k < at + j ==> buffer[k] == old(storage[p + k - at])
      {
        buffer[at + j] := storage[p + j];
      }
      forall k | at <= k < at + m ensures buffer[k] == Raw(node, old(storage[..]))[i * 512 + o + k - at] {
        BlockOf(i, o + k - at);
        assert Raw(node, old(storage[..]))[i * 512 + o + k - at] == RawByte(node, old(storage[..]), i * 512 + o + k - at);
      }
    }

    /** inode_truncate: the file is cut to a prefix, the blocks past it are free again, and
        no other file changes. */
    method Truncate(a: int, newSize: nat) returns (code: int)
      requires Valid() && (a != NIL ==> 0 <= a < MAX_INODES && inodes[a].inUse)
      modifies this`freeBlocks, this`owner, inodes, blockBitmap
      ensures Valid() && code == if a == NIL then -1 else 0
      ensures a == NIL || newSize >= old(inodes[a].size) ==>
        inodes[..] == old(inodes[..]) && owner == old(owner) && freeBlocks == old(freeBlocks)
      ensures a != NIL && newSize < old(inodes[a].size) ==>
        && inodes[a].inUse && inodes[a].kind == old(inodes[a].kind) && File(a) == old(File(a))[..newSize]
        && freeBlocks == old(freeBlocks) + Blocks(old(inodes[a].size)) - Blocks(newSize)
      ensures a != NIL ==> OthersSame(old(inodes[..]), storage[..], inodes[..], storage[..], a)
    {
      if a == NIL { return -1; }
      if newSize >= inodes[a].size {
        NothingChanged(inodes[..], storage[..], a);
        return 0;
      }
      TrimContents(inodes[a], storage[..], newSize);
      TrimKeeps(inodes[..], owner, a, newSize);
      ghost var n := inodes[a];
      CutNone(inodes[..], owner, a, Blocks(newSize));
      FreeTail(a, Blocks(newSize), inodes[..], owner);
      SetInode(a, inodes[a].(size := newSize, blockCount := Blocks(newSize)));
      OthersKept(old(inodes[..]), storage[..], a, inodes[a]);
      assert inodes[..] == old(inodes[..])[a := Trimmed(n, Blocks(newSize), newSize)];
      code := 0;
    }

    /** Of inode `a`, slots `from` up to `i` have been freed and zeroed. */
    ghost predicate FreedTo(a: int, from: nat, i: nat, was: seq<Inode>, owned: Owners, free: int)
      reads this, inodes, blockBitmap, inodeBitmap
    {
      && BlocksValid({}) && InodesValid() && |was| == MAX_INODES && 0 <= a < MAX_INODES
      && owner == Cut(owned, a, from, i) && freeBlocks == free + i - from
      && inodes[..] == was[a := Cleared(was[a], from, i)] && inodes[a].blockCount == was[a].blockCount
    }

    /** The loop of inode_truncate. */
    method FreeTail(a: int, count: nat, ghost was: seq<Inode>, ghost owned: Owners)
      requires FsInv(was, owned, NIL) && 0 <= a < MAX_INODES && was[a].inUse && count <= was[a].blockCount
      requires inodes.Length == MAX_INODES && FreedTo(a, count, count, was, owned, freeBlocks)
      requires |was| == MAX_INODES && inodes[a].blockCount == was[a].blockCount <= DIRECT
      modifies this`freeBlocks, this`owner, inodes, blockBitmap
      ensures FreedTo(a, count, was[a].blockCount, was, owned, old(freeBlocks))
    {
      hide FreedTo, FsInv;
      ghost var free := freeBlocks;
      var i := count;
      var last := inodes[a].blockCount; // not written in the loop
      while i < last && i < DIRECT
        invariant FreedTo(a, count, i, was, owned, free) && count <= i <= last == was[a].blockCount
      {
        FreeRound(a, i, was, owned, count, free);
        i := i + 1;
      }
    }

    /** One round of inode_truncate. */
    method FreeRound(a: int, i: nat, ghost was: seq<Inode>, ghost owned: Owners, ghost from: nat, ghost free: int)
      requires FsInv(was, owned, NIL) && FreedTo(a, from, i, was, owned, free)
      requires 0 <= a < MAX_INODES && was[a].inUse && from <= i < was[a].blockCount
      modifies this`freeBlocks, this`owner, inodes, blockBitmap
      ensures FreedTo(a, from, i + 1, was, owned, free)
    {
      CutStep(was, owned, a, from, i);
      assert inodes[a] == inodes[..][a];
      FreeSlot(a, i, was[a], from);
      TwiceUpdated(was, a, Cleared(was[a], from, i), Cleared(was[a], from, i + 1));
      assert inodes[a] == inodes[..][a];
    }

    /** Frees the block in slot `i` and zeroes the slot. */
    method FreeSlot(a: int, i: nat, ghost n: Inode, ghost from: nat)
      requires BlocksValid({}) && InodesValid() && 0 <= a < MAX_INODES && from <= i < |n.direct|
      requires inodes[a] == Cleared(n, from, i) && n.direct[i] in owner && 1 <= n.direct[i] < MAX_BLOCKS
      modifies this`freeBlocks, this`owner, inodes, blockBitmap
      ensures BlocksValid({}) && InodesValid()
      ensures owner == old(owner) - {n.direct[i]} && freeBlocks == old(freeBlocks) + 1
      ensures inodes[..] == old(inodes[..])[a := Cleared(n, from, i + 1)]
    {
      if inodes[a].direct[i] > 0 {
        BlockFree(inodes[a].direct[i]);
        assert ZeroSlots(n.direct, from, i)[i := 0] == ZeroSlots(n.direct, from, i + 1);
        SetInode(a, inodes[a].(direct := inodes[a].direct[i := 0]));
      }
    }

    /** inode_alloc: the first inode not in use becomes an empty file, or NIL when all are. */
    method InodeAlloc(kind: nat) returns (a: int)
      requires Valid()
      modifies this`freeInodes, inodes, inodeBitmap
      ensures Valid() && (a == NIL <==> forall c :: 0 <= c < MAX_INODES ==> old(inodes[..])[c].inUse)
      ensures a == NIL ==> inodes[..] == old(inodes[..])
      ensures a != NIL ==>
        && 0 <= a < MAX_INODES && !old(inodes[..])[a].inUse && inodes[a].inUse
        && inodes[a].kind == kind && File(a) == []
        && (forall c :: 0 <= c < a ==> inodes[c].inUse)
      ensures a != NIL ==> OthersSame(old(inodes[..]), storage[..], inodes[..], storage[..], a)
    {
      a := FindFree(inodeBitmap, 0, MAX_INODES);
      FirstFree(inodes[..], inodeBitmap[..], a);
      if a == -1 { return NIL; }
      AdmitKeeps(inodes[..], owner, a, kind);
      OthersKept(inodes[..], storage[..], a, NewInode(kind));
      Claim(a, kind);
    }

    /** Marks inode `a` and initialises it. */
    method Claim(a: int, kind: nat)
      requires InodesValid() && 0 <= a < MAX_INODES && !inodes[a].inUse
      modifies this`freeInodes, inodes, inodeBitmap
      ensures InodesValid() && inodes[..] == old(inodes[..])[a := NewInode(kind)]
    {
      UsedChange(inodes[..], a, NewInode(kind));
      Bitmaps.Set(inodeBitmap, a);
      inodes[a] := NewInode(kind);
      assert inodes[..] == old(inodes[..])[a := NewInode(kind)];
      freeInodes := freeInodes - 1;
    }

    /** inode_free: the inode and all its blocks are free again; no other file changes. */
    method InodeFree(a: int)
      requires Valid() && (a != NIL ==> 0 <= a < MAX_INODES)
      modifies this`freeBlocks, this`freeInodes, this`owner, inodes, blockBitmap, inodeBitmap
      ensures Valid()
      ensures a == NIL || !old(inodes[a].inUse) ==>
        inodes[..] == old(inodes[..]) && owner == old(owner) && freeBlocks == old(freeBlocks) && freeInodes == old(freeInodes)
      ensures a != NIL ==> OthersSame(old(inodes[..]), storage[..], inodes[..], storage[..], a)
      ensures a != NIL && old(inodes[a].inUse) ==>
        && !inodes[a].inUse && freeInodes == old(freeInodes) + 1
        && freeBlocks == old(freeBlocks) + Blocks(old(inodes[a].size))
    {
      if a == NIL { return; }
      NothingChanged(inodes[..], storage[..], a);
      if !inodes[a].inUse { return; }
      ghost var n := inodes[a].(inUse := false);
      DropKeeps(inodes[..], owner, a, n);
      OthersKept(inodes[..], storage[..], a, n);
      assert inodes[a].blockCount == Blocks(inodes[a].size);
      FreeBlocksOf(a);
      Disuse(a);
    }

    /** Marks inode `a` as not in use. */
    method Disuse(a: int)
      requires InodesValid() && 0 <= a < MAX_INODES && inodes[a].inUse
      modifies this`freeInodes, inodes, inodeBitmap
      ensures InodesValid() && inodes[..] == old(inodes[..])[a := old(inodes[a]).(inUse := false)]
      ensures freeInodes == old(freeInodes) + 1 && inodes[a] == old(inodes[a]).(inUse := false)
    {
      UsedChange(inodes[..], a, inodes[a].(inUse := false));
      Bitmaps.Clear(inodeBitmap, a);
      inodes[a] := inodes[a].(inUse := false);
      assert inodes[..] == old(inodes[..])[a := inodes[a]];
      freeInodes := freeInodes + 1;
    }

    /** The loop of inode_free. */
    method FreeBlocksOf(a: int)
      requires Valid() && 0 <= a < MAX_INODES && inodes[a].inUse
      modifies this`freeBlocks, this`owner, blockBitmap
      ensures BlocksValid({}) && owner == Cut(old(owner), a, 0, inodes[a].blockCount)
      ensures freeBlocks == old(freeBlocks) + inodes[a].blockCount
    {
      CutNone(inodes[..], owner, a, 0);
      var i := 0;
      while i < DIRECT && i < inodes[a].blockCount
        invariant BlocksValid({}) && 0 <= i <= inodes[a].blockCount
        invariant owner == Cut(old(owner), a, 0, i) && freeBlocks == old(freeBlocks) + i
      {
        CutStep(inodes[..], old(owner), a, 0, i);
        if inodes[a].direct[i] > 0 {
          BlockFree(inodes[a].direct[i]);
        }
        i := i + 1;
      }
    }
  }
}
