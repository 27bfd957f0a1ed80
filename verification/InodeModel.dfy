/** Files over blocks (inode.c) as values: block ownership, and the flat byte sequence that
    an inode's blocks spell out. */
module InodeModel {

  const NIL := -1
  const BLOCK := 512
  const MAX_BLOCKS := 1024
  const DIRECT := 10
  const MAX_INODES := 256
  const STORAGE := 512 * 1024

  type Byte = bv8

  datatype Inode = Inode(inUse: bool, kind: nat, size: nat, blockCount: nat, direct: seq<nat>)

  /** For each block in use, the inode and the slot that own it. */
  type Owners = map<int, (int, int)>

  function Blocks(size: nat): nat {
    (size + 511) / 512
  }

  // ---------------------------------------------------------------- ownership

  /** The direct pointers are a prefix of valid block numbers followed by zeros. */
  predicate Shape(n: Inode) {
    && |n.direct| == DIRECT && n.blockCount <= DIRECT && n.size <= BLOCK * n.blockCount
    && (forall i :: 0 <= i < n.blockCount ==> 1 <= n.direct[i] < MAX_BLOCKS)
    && (forall i :: n.blockCount <= i < DIRECT ==> n.direct[i] == 0)
  }

  /** The inode has exactly the blocks its size needs. */
  predicate Dense(n: Inode) {
    n.blockCount == Blocks(n.size)
  }

  ghost predicate OwnersListed(inodes: seq<Inode>, owner: Owners)
    requires |inodes| == MAX_INODES
  {
    forall b :: b in owner ==>
      var (a, i) := owner[b];
      && 1 <= b < MAX_BLOCKS && 0 <= a < MAX_INODES && inodes[a].inUse
      && 0 <= i < |inodes[a].direct| && inodes[a].direct[i] == b
  }

  /** Every block of this inode is owned by the slot that names it. */
  ghost predicate SlotsOwned(n: Inode, a: int, owner: Owners)
    requires Shape(n)
  {
    forall i :: 0 <= i < n.blockCount ==> n.direct[i] in owner && owner[n.direct[i]] == (a, i)
  }

  /** The pointers of an inode that is being written: each is zero or owned by its slot. */
  ghost predicate Slotted(n: Inode, a: int, owner: Owners) {
    |n.direct| == DIRECT && forall i :: 0 <= i < DIRECT && n.direct[i] != 0 ==>
      1 <= n.direct[i] < MAX_BLOCKS && n.direct[i] in owner && owner[n.direct[i]] == (a, i)
  }

  /** The invariant of the block layer; inode `busy` may be in the middle of a write. */
  ghost predicate FsInv(inodes: seq<Inode>, owner: Owners, busy: int) {
    && |inodes| == MAX_INODES && OwnersListed(inodes, owner)
    && forall a :: 0 <= a < MAX_INODES && inodes[a].inUse ==>
         if a == busy then Slotted(inodes[a], a, owner)
         else Shape(inodes[a]) && SlotsOwned(inodes[a], a, owner) && Dense(inodes[a])
  }

  /** Starting to write an inode. */
  lemma {:induction false} StartWrite(inodes: seq<Inode>, owner: Owners, a: int)
    requires FsInv(inodes, owner, NIL) && 0 <= a < MAX_INODES && inodes[a].inUse
    ensures FsInv(inodes, owner, a) && Shape(inodes[a]) && Dense(inodes[a])
  {
    assert SlotsOwned(inodes[a], a, owner);
  }

  /** No block is owned by two slots, and the owned blocks are those of files in use. */
  lemma {:induction false} NoSharing(inodes: seq<Inode>, owner: Owners, a: int, i: nat, c: int, j: nat)
    requires FsInv(inodes, owner, NIL) && 0 <= a < MAX_INODES && 0 <= c < MAX_INODES
    requires inodes[a].inUse && inodes[c].inUse && i < inodes[a].blockCount && j < inodes[c].blockCount
    ensures inodes[a].direct[i] in owner
    ensures inodes[a].direct[i] == inodes[c].direct[j] ==> a == c && i == j
  {
    assert SlotsOwned(inodes[a], a, owner) && SlotsOwned(inodes[c], c, owner);
  }

  // ---------------------------------------------------------------- contents

  /** The byte at logical position `k` of an inode's blocks. */
  function RawByte(n: Inode, st: seq<Byte>, k: nat): Byte
    requires Shape(n) && |st| == STORAGE && k < BLOCK * n.blockCount
  {
    st[n.direct[k / 512] * 512 + k % 512]
  }

  /** All bytes of an inode's blocks, in order. */
  function Raw(n: Inode, st: seq<Byte>): (r: seq<Byte>)
    requires Shape(n) && |st| == STORAGE
    ensures |r| == BLOCK * n.blockCount && forall k :: 0 <= k < |r| ==> r[k] == RawByte(n, st, k)
  {
    seq(BLOCK * n.blockCount, k requires 0 <= k < BLOCK * n.blockCount => RawByte(n, st, k))
  }

  /** The contents of a file. */
  function Contents(n: Inode, st: seq<Byte>): seq<Byte>
    requires Shape(n) && |st| == STORAGE
  {
    Raw(n, st)[..n.size]
  }

  /** `s` with the bytes from position `p` on overwritten by `d`. */
  function Patch(s: seq<Byte>, p: nat, d: seq<Byte>): (r: seq<Byte>)
    requires p + |d| <= |s|
    ensures |r| == |s| && forall k :: 0 <= k < |s| ==> r[k] == if p <= k < p + |d| then d[k - p] else s[k]
  {
    s[..p] + d + s[p + |d|..]
  }

  function Zeros(n: nat): (r: seq<Byte>)
    ensures |r| == n && forall k :: 0 <= k < n ==> r[k] == 0
  {
    seq(n, k => 0)
  }

  /** Only bytes of block `b` differ. */
  predicate OnlyBlock(st: seq<Byte>, st': seq<Byte>, b: nat) {
    |st| == |st'| == STORAGE && forall p :: 0 <= p < STORAGE && p / 512 != b ==> st'[p] == st[p]
  }

  /** How many of the next `left` bytes from position `p` on lie in the same block. */
  function InBlock(p: nat, left: nat): (m: nat)
    ensures m <= left && p % 512 + m <= 512 && (left > 0 ==> m > 0)
  {
    if 512 - p % 512 > left then left else 512 - p % 512
  }

  lemma {:induction false} BlockOf(b: nat, r: nat)
    requires r < 512
    ensures (b * 512 + r) / 512 == b && (b * 512 + r) % 512 == r
  {
  }

  /** Changing a block that an inode does not use leaves its bytes alone. */
  lemma {:induction false} RawFrame(n: Inode, st: seq<Byte>, st': seq<Byte>, b: nat)
    requires Shape(n) && OnlyBlock(st, st', b) && b !in n.direct[..n.blockCount]
    ensures Raw(n, st') == Raw(n, st)
  {
    forall k: nat | k < BLOCK * n.blockCount ensures RawByte(n, st', k) == RawByte(n, st, k) {
      BlockOf(n.direct[k / 512], k % 512);
      assert n.direct[k / 512] in n.direct[..n.blockCount];
    }
  }

  /** Overwriting part of one block overwrites the same part of the flat bytes. */
  lemma {:induction false} RawPatch(n: Inode, st: seq<Byte>, i: nat, o: nat, d: seq<Byte>)
    requires Shape(n) && |st| == STORAGE && i < n.blockCount && o + |d| <= 512
    requires forall j :: 0 <= j < n.blockCount && j != i ==> n.direct[j] != n.direct[i]
    ensures n.direct[i] * 512 + o + |d| <= STORAGE
    ensures Raw(n, Patch(st, n.direct[i] * 512 + o, d)) == Patch(Raw(n, st), i * 512 + o, d)
    ensures OnlyBlock(st, Patch(st, n.direct[i] * 512 + o, d), n.direct[i])
  {
    var b := n.direct[i];
    var st' := Patch(st, b * 512 + o, d);
    var want := Patch(Raw(n, st), i * 512 + o, d);
    forall k: nat | k < BLOCK * n.blockCount ensures RawByte(n, st', k) == want[k] {
      RawPatchByte(n, st, i, o, d, k);
    }
    forall p | 0 <= p < STORAGE && p / 512 != b ensures st'[p] == st[p] {
    }
  }

  lemma {:induction false} RawPatchByte(n: Inode, st: seq<Byte>, i: nat, o: nat, d: seq<Byte>, k: nat)
    requires Shape(n) && |st| == STORAGE && i < n.blockCount && o + |d| <= 512 && k < BLOCK * n.blockCount
    requires forall j :: 0 <= j < n.blockCount && j != i ==> n.direct[j] != n.direct[i]
    requires n.direct[i] * 512 + o + |d| <= STORAGE
    ensures RawByte(n, Patch(st, n.direct[i] * 512 + o, d), k)
         == if i * 512 + o <= k < i * 512 + o + |d| then d[k - (i * 512 + o)] else RawByte(n, st, k)
  {
    var b := n.direct[i];
    var p := n.direct[k / 512] * 512 + k % 512;
    if k / 512 != i {
      assert n.direct[k / 512] != b;
      assert !(b * 512 + o <= p < b * 512 + o + |d|);
    }
  }

  /** A fresh zeroed block at the end lengthens the flat bytes by zeros. */
  lemma {:induction false} RawGrow(n: Inode, st: seq<Byte>, st': seq<Byte>, b: nat)
    requires Shape(n) && n.blockCount < DIRECT && 1 <= b < MAX_BLOCKS && b !in n.direct[..n.blockCount]
    requires OnlyBlock(st, st', b) && forall p :: b * 512 <= p < b * 512 + 512 ==> st'[p] == 0
    ensures var n' := Filled(n, n.blockCount, b);
      Shape(n') && Raw(n', st') == Raw(n, st) + Zeros(512)
  {
    var n' := Filled(n, n.blockCount, b);
    RawFrame(n, st, st', b);
    var want := Raw(n, st) + Zeros(512);
    forall k: nat | k < BLOCK * n'.blockCount ensures RawByte(n', st', k) == want[k] {
      if k < BLOCK * n.blockCount {
        assert RawByte(n', st', k) == RawByte(n, st', k) == Raw(n, st')[k];
      }
    }
  }

  // ---------------------------------------------------------------- changes of ownership

  /** What the allocation branch of inode_write makes of an inode whose slot `i` is empty. */
  function Filled(n: Inode, i: nat, b: nat): Inode
    requires i < |n.direct|
  {
    n.(direct := n.direct[i := b], blockCount := n.blockCount + 1)
  }

  lemma {:induction false} FillKeeps(inodes: seq<Inode>, owner: Owners, a: int, i: nat, b: nat)
    requires FsInv(inodes, owner, a) && 0 <= a < MAX_INODES && inodes[a].inUse
    requires i < DIRECT && inodes[a].direct[i] == 0 && 1 <= b < MAX_BLOCKS && b !in owner
    ensures FsInv(inodes[a := Filled(inodes[a], i, b)], owner[b := (a, i as int)], a)
    ensures b !in inodes[a].direct
  {
    var owner' := owner[b := (a, i as int)];
    assert Slotted(inodes[a], a, owner);
    assert Slotted(Filled(inodes[a], i, b), a, owner');
    forall c | 0 <= c < MAX_INODES && c != a && inodes[c].inUse ensures SlotsOwned(inodes[c], c, owner') {
      assert SlotsOwned(inodes[c], c, owner);
    }
  }

  /** Setting the size that the blocks are needed for ends a write. */
  lemma {:induction false} ResizeKeeps(inodes: seq<Inode>, owner: Owners, a: int, size: nat)
    requires FsInv(inodes, owner, a) && 0 <= a < MAX_INODES && inodes[a].inUse && Shape(inodes[a])
    requires inodes[a].blockCount == Blocks(size)
    ensures FsInv(inodes[a := inodes[a].(size := size)], owner, NIL)
  {
    var n' := inodes[a].(size := size);
    assert Slotted(inodes[a], a, owner);
    assert SlotsOwned(n', a, owner);
  }

  /** The owners once slots `from` up to `to` of inode `a` are given up. */
  function Cut(owner: Owners, a: int, from: int, to: int): Owners {
    map b | b in owner && !(owner[b].0 == a && from <= owner[b].1 < to) :: owner[b]
  }

  lemma {:induction false} CutNone(inodes: seq<Inode>, owner: Owners, a: int, from: nat)
    requires FsInv(inodes, owner, NIL) && 0 <= a < MAX_INODES && inodes[a].inUse
    ensures Cut(owner, a, from, from) == owner
    ensures inodes[a := Cleared(inodes[a], from, from)] == inodes && inodes[a].blockCount <= DIRECT
  {
    assert Cleared(inodes[a], from, from).direct == inodes[a].direct;
  }

  lemma {:induction false} CutStep(inodes: seq<Inode>, owner: Owners, a: int, from: nat, to: nat)
    requires FsInv(inodes, owner, NIL) && 0 <= a < MAX_INODES && inodes[a].inUse
    requires from <= to < inodes[a].blockCount
    ensures var b := inodes[a].direct[to];
      && b in Cut(owner, a, from, to) && 1 <= b < MAX_BLOCKS
      && Cut(owner, a, from, to + 1) == Cut(owner, a, from, to) - {b}
      && |Cut(owner, a, from, to + 1)| == |Cut(owner, a, from, to)| - 1
  {
    var b := inodes[a].direct[to];
    assert SlotsOwned(inodes[a], a, owner);
    var m, m' := Cut(owner, a, from, to), Cut(owner, a, from, to + 1);
    forall x | x in m ensures x in m' <==> x != b {
      assert inodes[owner[x].0].direct[owner[x].1] == x;
    }
    assert m' == m - {b};
    assert m.Keys == m'.Keys + {b};
    assert |m| == |m.Keys| && |m'| == |m'.Keys|;
  }

  /** The pointers with slots `from` up to `to` zeroed. */
  function ZeroSlots(direct: seq<nat>, from: nat, to: nat): (r: seq<nat>)
    ensures |r| == |direct| && forall k :: 0 <= k < |r| ==> r[k] == if from <= k < to then 0 else direct[k]
  {
    seq(|direct|, k requires 0 <= k < |direct| => if from <= k < to then 0 else direct[k])
  }

  /** The inode with slots `from` up to `to` zeroed. */
  function Cleared(n: Inode, from: nat, to: nat): Inode {
    n.(direct := ZeroSlots(n.direct, from, to))
  }

  /** The inode cut down to `count` blocks. */
  function Trimmed(n: Inode, count: nat, size: nat): Inode {
    Cleared(n, count, n.blockCount).(blockCount := count, size := size)
  }

  lemma {:induction false} TwiceUpdated(s: seq<Inode>, a: nat, x: Inode, y: Inode)
    requires a < |s|
    ensures s[a := x][a := y] == s[a := y]
  {
  }

  /** Cutting blocks cuts the contents to a prefix. */
  lemma {:induction false} TrimContents(n: Inode, st: seq<Byte>, size: nat)
    requires Shape(n) && |st| == STORAGE && size <= n.size
    ensures var n' := Trimmed(n, Blocks(size), size);
      Blocks(size) <= n.blockCount && Shape(n') && Contents(n', st) == Contents(n, st)[..size]
  {
    var n' := Trimmed(n, Blocks(size), size);
    forall k: nat | k < size ensures RawByte(n', st, k) == RawByte(n, st, k) {
      assert k / 512 < Blocks(size);
    }
  }

  lemma {:induction false} TrimKeeps(inodes: seq<Inode>, owner: Owners, a: int, size: nat)
    requires FsInv(inodes, owner, NIL) && 0 <= a < MAX_INODES && inodes[a].inUse
    requires Blocks(size) <= inodes[a].blockCount
    ensures var n' := Trimmed(inodes[a], Blocks(size), size);
      FsInv(inodes[a := n'], Cut(owner, a, Blocks(size), inodes[a].blockCount), NIL)
  {
    var n := inodes[a];
    var n', owner' := Trimmed(n, Blocks(size), size), Cut(owner, a, Blocks(size), n.blockCount);
    assert SlotsOwned(n, a, owner);
    assert SlotsOwned(n', a, owner');
    forall c | 0 <= c < MAX_INODES && c != a && inodes[c].inUse ensures SlotsOwned(inodes[c], c, owner') {
      assert SlotsOwned(inodes[c], c, owner);
    }
  }

  /** Giving up the inode and all its blocks. */
  lemma {:induction false} DropKeeps(inodes: seq<Inode>, owner: Owners, a: int, n': Inode)
    requires FsInv(inodes, owner, NIL) && 0 <= a < MAX_INODES && inodes[a].inUse && !n'.inUse
    ensures FsInv(inodes[a := n'], Cut(owner, a, 0, inodes[a].blockCount), NIL)
  {
    var owner' := Cut(owner, a, 0, inodes[a].blockCount);
    forall c | 0 <= c < MAX_INODES && c != a && inodes[c].inUse ensures SlotsOwned(inodes[c], c, owner') {
      assert SlotsOwned(inodes[c], c, owner);
    }
  }

  function NewInode(kind: nat): Inode {
    Inode(true, kind, 0, 0, seq(DIRECT, i => 0))
  }

  lemma {:induction false} AdmitKeeps(inodes: seq<Inode>, owner: Owners, a: int, kind: nat)
    requires FsInv(inodes, owner, NIL) && 0 <= a < MAX_INODES && !inodes[a].inUse
    ensures FsInv(inodes[a := NewInode(kind)], owner, NIL)
  {
    assert SlotsOwned(NewInode(kind), a, owner);
  }

  /** Inodes in use. */
  function UsedInodes(inodes: seq<Inode>): set<int> {
    set a | 0 <= a < |inodes| && inodes[a].inUse
  }

  /** An unchanged storage leaves the other files alone. */
  lemma {:induction false} OthersKept(inodes: seq<Inode>, st: seq<Byte>, a: nat, n: Inode)
    requires |inodes| == MAX_INODES && |st| == STORAGE && a < MAX_INODES
    ensures OthersSame(inodes, st, inodes[a := n], st, a)
  {
  }

  lemma {:induction false} UsedChange(inodes: seq<Inode>, a: nat, n: Inode)
    requires a < |inodes|
    ensures var u := UsedInodes(inodes[a := n]);
      && (n.inUse ==> u == UsedInodes(inodes) + {a}) && (!n.inUse ==> u == UsedInodes(inodes) - {a})
      && (n.inUse == inodes[a].inUse ==> u == UsedInodes(inodes))
  {
  }

  // ---------------------------------------------------------------- flat writes

  /** `s` lengthened by zeros. */
  function Padded(s: seq<Byte>, n: nat): seq<Byte> {
    if n <= |s| then s else s + Zeros(n - |s|)
  }

  /** What a write of `d` at `offset` makes of the contents. */
  function Written(old_: seq<Byte>, offset: nat, d: seq<Byte>): seq<Byte>
    requires offset <= |old_|
  {
    old_[..offset] + d + if offset + |d| < |old_| then old_[offset + |d|..] else []
  }

  /** The flat law of writing, at or before the end of the file. */
  lemma {:induction false} WrittenContents(raw: seq<Byte>, size: nat, offset: nat, d: seq<Byte>, n: nat)
    requires offset <= size <= |raw| && offset + |d| <= n && |raw| <= n
    ensures var size' := if offset + |d| > size then offset + |d| else size;
      Patch(Padded(raw, n), offset, d)[..size'] == Written(raw[..size], offset, d)
  {
  }

  /** Every inode but `a` is the same, and every file among them has the same bytes. */
  ghost predicate OthersSame(inodes: seq<Inode>, st: seq<Byte>, inodes': seq<Inode>, st': seq<Byte>, a: int) {
    && |inodes| == |inodes'| == MAX_INODES && |st| == |st'| == STORAGE
    && forall c :: 0 <= c < MAX_INODES && c != a ==>
         && inodes'[c] == inodes[c]
         && (inodes[c].inUse && Shape(inodes[c]) ==> Raw(inodes[c], st') == Raw(inodes[c], st))
  }

  lemma {:induction false} OthersTrans(i0: seq<Inode>, s0: seq<Byte>, i1: seq<Inode>, s1: seq<Byte>,
                                       i2: seq<Inode>, s2: seq<Byte>, a: int)
    requires OthersSame(i0, s0, i1, s1, a) && OthersSame(i1, s1, i2, s2, a)
    ensures OthersSame(i0, s0, i2, s2, a)
  {
  }

  lemma {:induction false} NothingChanged(inodes: seq<Inode>, st: seq<Byte>, a: int)
    requires |inodes| == MAX_INODES && |st| == STORAGE
    ensures OthersSame(inodes, st, inodes, st, a)
    ensures 0 <= a < MAX_INODES && Shape(inodes[a]) ==>
      Raw(inodes[a], st) == Padded(Raw(inodes[a], st), BLOCK * inodes[a].blockCount)
  {
  }

  /** Writing a block that no other inode owns leaves the other files alone. */
  lemma {:induction false} OthersFrame(inodes: seq<Inode>, owner: Owners, a: int, n': Inode,
                                       st: seq<Byte>, st': seq<Byte>, b: nat)
    requires FsInv(inodes, owner, a) && 0 <= a < MAX_INODES && OnlyBlock(st, st', b)
    requires b in owner ==> owner[b].0 == a
    ensures OthersSame(inodes, st, inodes[a := n'], st', a)
  {
    forall c | 0 <= c < MAX_INODES && c != a && inodes[c].inUse ensures Raw(inodes[c], st') == Raw(inodes[c], st) {
      assert SlotsOwned(inodes[c], c, owner);
      RawFrame(inodes[c], st, st', b);
    }
  }

  /** The slots of one inode name different blocks. */
  lemma {:induction false} OwnSlotsDiffer(inodes: seq<Inode>, owner: Owners, a: int, i: nat)
    requires FsInv(inodes, owner, a) && 0 <= a < MAX_INODES && inodes[a].inUse && i < DIRECT && inodes[a].direct[i] != 0
    ensures forall j :: 0 <= j < DIRECT && j != i ==> inodes[a].direct[j] != inodes[a].direct[i]
    ensures inodes[a].direct[i] in owner && owner[inodes[a].direct[i]].0 == a && 1 <= inodes[a].direct[i] < MAX_BLOCKS
  {
    assert Slotted(inodes[a], a, owner);
  }

  // ---------------------------------------------------------------- flat reads

  /** How many bytes inode_read copies: the test against the end of the file uses the sum
      of `offset` and `size` modulo 2^32, and the copy stops at the first empty slot. */
  function ReadCount(n: Inode, offset: nat, size: nat): (r: nat)
    ensures offset < n.size && n.size <= BLOCK * n.blockCount ==> r <= size && offset + r <= BLOCK * n.blockCount
  {
    if offset >= n.size then 0
    else
      var clipped := if (offset + size) % 0x1_0000_0000 > n.size then n.size - offset else size;
      if offset + clipped <= BLOCK * n.blockCount then clipped
      else if BLOCK * n.blockCount < offset then 0 else BLOCK * n.blockCount - offset
  }

  /** `out` is the part of `s` from `offset` on. */
  predicate Delivered(s: seq<Byte>, offset: nat, out: seq<Byte>) {
    out != [] ==> offset + |out| <= |s| && out == s[offset..offset + |out|]
  }

  lemma {:induction false} DeliveredPrefix(s: seq<Byte>, size: nat, offset: nat, out: seq<Byte>)
    requires Delivered(s, offset, out) && size <= |s| && (out != [] ==> offset + |out| <= size)
    ensures Delivered(s[..size], offset, out)
  {
  }

  /** The bytes that lie in the file, from `offset` on. */
  function Available(n: Inode, offset: nat, size: nat): nat {
    if offset >= n.size then 0 else if offset + size <= n.size then size else n.size - offset
  }

  /** A read is clipped to the file exactly when the sum does not wrap, or when there is
      nothing after the end of the file in its last block. */
  lemma {:induction false} ReadClippedIff(n: Inode, offset: nat, size: nat)
    requires Shape(n) && Dense(n) && offset < 0x1_0000_0000 && size < 0x1_0000_0000
    ensures ReadCount(n, offset, size) == Available(n, offset, size)
       <==> offset + size < 0x1_0000_0000 || offset >= n.size || n.size % 512 == 0
  {
    if offset + size >= 0x1_0000_0000 {
      assert (offset + size) % 0x1_0000_0000 == offset + size - 0x1_0000_0000;
    } else {
      assert (offset + size) % 0x1_0000_0000 == offset + size;
    }
  }

  // ---------------------------------------------------------------- the progress of a write

  /** Inode table and block storage. */
  datatype Disk = Disk(inodes: seq<Inode>, st: seq<Byte>)

  ghost predicate HasInode(d: Disk, a: int) {
    |d.inodes| == MAX_INODES && |d.st| == STORAGE && 0 <= a < MAX_INODES && |d.inodes[a].direct| == DIRECT
  }

  /** Between two disks, inode `a` got blocks as needed and the bytes `data` at position `p`. */
  ghost predicate Progress(d: Disk, d': Disk, a: int, p: nat, data: seq<Byte>) {
    && HasInode(d, a) && HasInode(d', a)
    && var n, n' := d.inodes[a], d'.inodes[a];
    && Shape(n) && Shape(n')
    && n.blockCount <= n'.blockCount && p + |data| <= BLOCK * n'.blockCount
    && (n'.blockCount == n.blockCount || BLOCK * (n'.blockCount - 1) < p + |data|)
    && Raw(n', d'.st) == Patch(Padded(Raw(n, d.st), BLOCK * n'.blockCount), p, data)
  }

  /** No file but `a` changed, and `a` kept its size and its being in use. */
  ghost predicate Beside(d: Disk, d': Disk, a: int) {
    && HasInode(d, a) && HasInode(d', a) && OthersSame(d.inodes, d.st, d'.inodes, d'.st, a)
    && d'.inodes[a].size == d.inodes[a].size && d'.inodes[a].inUse == d.inodes[a].inUse
    && d'.inodes[a].kind == d.inodes[a].kind
  }

  lemma {:induction false} BesideTrans(d: Disk, d1: Disk, d2: Disk, a: int)
    requires Beside(d, d1, a) && Beside(d1, d2, a)
    ensures Beside(d, d2, a)
  {
    OthersTrans(d.inodes, d.st, d1.inodes, d1.st, d2.inodes, d2.st, a);
  }

  /** What one round does to the pointers: slot `i` gets a block if it had none. */
  ghost predicate OneSlot(n: Inode, n': Inode, i: nat) {
    && |n.direct| == |n'.direct| == DIRECT && i < DIRECT
    && (forall k :: 0 <= k < DIRECT && k != i ==> n'.direct[k] == n.direct[k])
    && n'.blockCount == n.blockCount + if n.direct[i] == 0 then 1 else 0
  }

  /** Slot `i` has a block now; a new one at the end of the blocks lengthens them by zeros. */
  ghost predicate Ensured(d: Disk, d': Disk, a: int, i: nat) {
    && Beside(d, d', a) && OneSlot(d.inodes[a], d'.inodes[a], i) && d'.inodes[a].direct[i] != 0
    && var n, n' := d.inodes[a], d'.inodes[a];
    && (Shape(n) && i <= n.blockCount ==>
          Shape(n') && i < n'.blockCount && Raw(n', d'.st) == Padded(Raw(n, d.st), BLOCK * n'.blockCount))
  }

  lemma {:induction false} EnsuredAlready(d: Disk, a: int, i: nat)
    requires HasInode(d, a) && i < DIRECT && d.inodes[a].direct[i] != 0
    ensures Ensured(d, d, a, i)
  {
    NothingChanged(d.inodes, d.st, a);
  }

  /** A fresh zeroed block in an empty slot. */
  lemma {:induction false} EnsuredByFilling(d: Disk, owner: Owners, a: int, i: nat, b: nat, st': seq<Byte>)
    requires HasInode(d, a) && FsInv(d.inodes, owner, a) && d.inodes[a].inUse
    requires i < DIRECT && d.inodes[a].direct[i] == 0 && 1 <= b < MAX_BLOCKS && b !in owner
    requires OnlyBlock(d.st, st', b) && forall p :: b * 512 <= p < b * 512 + 512 ==> st'[p] == 0
    ensures Ensured(d, Disk(d.inodes[a := Filled(d.inodes[a], i, b)], st'), a, i)
  {
    var n := d.inodes[a];
    FillKeeps(d.inodes, owner, a, i, b);
    OthersFrame(d.inodes, owner, a, Filled(n, i, b), d.st, st', b);
    if Shape(n) && i <= n.blockCount {
      RawGrow(n, d.st, st', b);
    }
  }

  /** `data` replaces the bytes from `o` on of the block in slot `i`. */
  ghost predicate Stored(d: Disk, d': Disk, a: int, i: nat, o: nat, data: seq<Byte>) {
    && HasInode(d, a) && d'.inodes == d.inodes && OthersSame(d.inodes, d.st, d'.inodes, d'.st, a)
    && (Shape(d.inodes[a]) && i < d.inodes[a].blockCount && o + |data| <= 512 ==>
          Raw(d.inodes[a], d'.st) == Patch(Raw(d.inodes[a], d.st), i * 512 + o, data))
  }

  lemma {:induction false} StoredByCopying(d: Disk, owner: Owners, a: int, i: nat, o: nat, data: seq<Byte>)
    requires HasInode(d, a) && FsInv(d.inodes, owner, a) && d.inodes[a].inUse
    requires i < DIRECT && d.inodes[a].direct[i] != 0 && o + |data| <= 512
    ensures 1 <= d.inodes[a].direct[i] < MAX_BLOCKS
    ensures Stored(d, Disk(d.inodes, Patch(d.st, d.inodes[a].direct[i] * 512 + o, data)), a, i, o, data)
  {
    var b := d.inodes[a].direct[i];
    OwnSlotsDiffer(d.inodes, owner, a, i);
    var st' := Patch(d.st, b * 512 + o, data);
    assert OnlyBlock(d.st, st', b);
    OthersFrame(d.inodes, owner, a, d.inodes[a], d.st, st', b);
    assert d.inodes[a := d.inodes[a]] == d.inodes;
    if Shape(d.inodes[a]) && i < d.inodes[a].blockCount {
      RawPatch(d.inodes[a], d.st, i, o, data);
    }
  }

  /** One round of inode_write that stores `data` at `p`. */
  ghost predicate Round(d: Disk, d': Disk, a: int, p: nat, data: seq<Byte>) {
    && Beside(d, d', a) && data != [] && OneSlot(d.inodes[a], d'.inodes[a], p / 512)
    && (Shape(d.inodes[a]) && p / 512 <= d.inodes[a].blockCount ==> Progress(d, d', a, p, data))
  }

  lemma {:induction false} RoundOf(d: Disk, d1: Disk, d': Disk, a: int, p: nat, data: seq<Byte>)
    requires Ensured(d, d1, a, p / 512) && Stored(d1, d', a, p / 512, p % 512, data)
    requires data != [] && p % 512 + |data| <= 512
    ensures Round(d, d', a, p, data)
  {
    OthersTrans(d.inodes, d.st, d1.inodes, d1.st, d'.inodes, d'.st, a);
    if Shape(d.inodes[a]) && p / 512 <= d.inodes[a].blockCount {
      assert p / 512 * 512 + p % 512 == p;
    }
  }

  /** All rounds so far have stored `data` at `p`: in order if the first slot used was at
      most the first empty one; otherwise the first empty slot is a hole. */
  ghost predicate Rounds(d: Disk, d': Disk, a: int, p: nat, data: seq<Byte>) {
    && Beside(d, d', a) && Shape(d.inodes[a]) && (data == [] ==> d' == d)
    && (data != [] && p / 512 <= d.inodes[a].blockCount ==> Progress(d, d', a, p, data))
    && (data != [] && p / 512 > d.inodes[a].blockCount ==> HoleAt(d'.inodes[a], d.inodes[a].blockCount))
  }

  /** Slot `h` is empty although more than `h` blocks are counted. */
  ghost predicate HoleAt(n: Inode, h: nat) {
    |n.direct| == DIRECT && h < DIRECT && n.direct[h] == 0 && n.blockCount > h
  }

  lemma {:induction false} NoRounds(d: Disk, a: int, p: nat)
    requires HasInode(d, a) && Shape(d.inodes[a])
    ensures Rounds(d, d, a, p, [])
    ensures p <= BLOCK * d.inodes[a].blockCount ==> Progress(d, d, a, p, [])
  {
    NothingChanged(d.inodes, d.st, a);
  }

  /** Rounds compose. */
  lemma {:induction false} OneMoreRound(d: Disk, d1: Disk, d2: Disk, a: int, p: nat, x: seq<Byte>, y: seq<Byte>)
    requires Rounds(d, d1, a, p, x) && Round(d1, d2, a, p + |x|, y)
    ensures Rounds(d, d2, a, p, x + y)
  {
    BesideTrans(d, d1, d2, a);
    var h := d.inodes[a].blockCount;
    hide Beside, Progress;
    if p / 512 <= h {
      InOrder(d, d1, d2, a, p, x, y);
    } else {
      HoleStays(d, d1, d2, a, p, x, y);
    }
  }

  lemma {:induction false} InOrder(d: Disk, d1: Disk, d2: Disk, a: int, p: nat, x: seq<Byte>, y: seq<Byte>)
    requires Rounds(d, d1, a, p, x) && Round(d1, d2, a, p + |x|, y) && p / 512 <= d.inodes[a].blockCount
    ensures Progress(d, d2, a, p, x + y)
  {
    if x == [] {
      assert x + y == y;
    } else {
      ProgressTrans(d, d1, d2, a, p, x, y);
    }
  }

  lemma {:induction false} HoleStays(d: Disk, d1: Disk, d2: Disk, a: int, p: nat, x: seq<Byte>, y: seq<Byte>)
    requires Rounds(d, d1, a, p, x) && Round(d1, d2, a, p + |x|, y) && p / 512 > d.inodes[a].blockCount
    ensures HoleAt(d2.inodes[a], d.inodes[a].blockCount)
  {
    assert (p + |x|) / 512 >= p / 512;
    assert Shape(d.inodes[a]) && OneSlot(d1.inodes[a], d2.inodes[a], (p + |x|) / 512);
  }

  lemma {:induction false} ProgressTrans(d: Disk, d1: Disk, d2: Disk, a: int, p: nat, x: seq<Byte>, y: seq<Byte>)
    requires Progress(d, d1, a, p, x) && Progress(d1, d2, a, p + |x|, y)
    ensures Progress(d, d2, a, p, x + y)
  {
    var n, n1, n2 := d.inodes[a], d1.inodes[a], d2.inodes[a];
    ComposePatches(Raw(n, d.st), BLOCK * n1.blockCount, BLOCK * n2.blockCount, p, x, y);
  }

  lemma {:induction false} ComposePatches(raw: seq<Byte>, m: nat, m': nat, p: nat, x: seq<Byte>, y: seq<Byte>)
    requires |raw| <= m <= m' && p + |x| <= m && p + |x| + |y| <= m'
    ensures Patch(Padded(Patch(Padded(raw, m), p, x), m'), p + |x|, y) == Patch(Padded(raw, m'), p, x + y)
  {
    var s, s' := Patch(Padded(Patch(Padded(raw, m), p, x), m'), p + |x|, y), Patch(Padded(raw, m'), p, x + y);
    assert |s| == |s'|;
    forall k | 0 <= k < |s| ensures s[k] == s'[k] {
    }
  }

  // ---------------------------------------------------------------- the end of a write

  /** Some block is free. */
  ghost predicate Room(owner: Owners) {
    exists c :: 1 <= c < MAX_BLOCKS && c !in owner
  }

  /** Position `p` lies in a slot that has no block yet. */
  predicate NeedsBlock(direct: seq<nat>, p: nat) {
    p / 512 < |direct| && direct[p / 512] == 0
  }

  /** Why a write stops short at position `p`: the file is at its largest, or the position
      needs a block and every block is taken. */
  ghost predicate Stuck(p: nat, inodes: seq<Inode>, a: int, owner: Owners) {
    p / 512 >= DIRECT || (0 <= a < |inodes| && NeedsBlock(inodes[a].direct, p) && !Room(owner))
  }

  /** When inode_write at `p` keeps the invariant: `p` lies in or at the end of the blocks, or
      in the first block that is missing and a byte can be stored there. */
  ghost predicate Fits(n: Inode, p: nat, data: seq<Byte>, owner: Owners) {
    || p <= BLOCK * n.blockCount
    || (p / 512 == n.blockCount < DIRECT && data != [] && Room(owner))
  }

  function Max(x: int, y: int): int {
    if x < y then y else x
  }

  /** The contents after `data` was written at `p`: past the end of the file, the gap shows
      what the last block holds there and then zeros. */
  ghost function After(n: Inode, st: seq<Byte>, p: nat, data: seq<Byte>): seq<Byte>
    requires Shape(n) && |st| == STORAGE
  {
    if p <= n.size then Written(Contents(n, st), p, data) else Padded(Raw(n, st), p)[..p] + data
  }

  /** Raising the size at the end of a write that kept the order of the slots. */
  lemma {:induction false} GoodEnd(d0: Disk, d: Disk, owner: Owners, a: int, p: nat, data: seq<Byte>, inodes: seq<Inode>)
    requires Progress(d0, d, a, p, data) && FsInv(d.inodes, owner, a) && d.inodes[a].inUse
    requires Dense(d0.inodes[a]) && d.inodes[a].size == d0.inodes[a].size
    requires p <= BLOCK * d0.inodes[a].blockCount || data != []
    requires inodes == d.inodes[a := d.inodes[a].(size := Max(d.inodes[a].size, p + |data|))]
    ensures FsInv(inodes, owner, NIL) && Shape(inodes[a])
    ensures Contents(inodes[a], d.st) == After(d0.inodes[a], d0.st, p, data)
  {
    var n0, n := d0.inodes[a], d.inodes[a];
    ResizeKeeps(d.inodes, owner, a, Max(n.size, p + |data|));
    EndContents(n0, d0.st, n, d.st, p, data);
  }

  lemma {:induction false} EndContents(n0: Inode, st0: seq<Byte>, n: Inode, st: seq<Byte>, p: nat, data: seq<Byte>)
    requires Shape(n0) && Shape(n) && |st0| == |st| == STORAGE && n.size == n0.size && n0.blockCount <= n.blockCount
    requires p + |data| <= BLOCK * n.blockCount && n.size <= BLOCK * n.blockCount
    requires Raw(n, st) == Patch(Padded(Raw(n0, st0), BLOCK * n.blockCount), p, data)
    ensures var n' := n.(size := Max(n.size, p + |data|));
      Shape(n') && Contents(n', st) == After(n0, st0, p, data)
  {
    var n' := n.(size := Max(n.size, p + |data|));
    assert Raw(n', st) == Raw(n, st);
    if p <= n0.size {
      WrittenContents(Raw(n0, st0), n0.size, p, data, BLOCK * n.blockCount);
    } else {
      GapContents(Raw(n0, st0), p, data, BLOCK * n.blockCount);
    }
  }

  lemma {:induction false} GapContents(raw: seq<Byte>, p: nat, data: seq<Byte>, n: nat)
    requires p + |data| <= n && |raw| <= n
    ensures Patch(Padded(raw, n), p, data)[..p + |data|] == Padded(raw, p)[..p] + data
  {
  }

  /** Every other end breaks the inode: it has a hole, or a size beyond its blocks. */
  lemma {:induction false} BadEnd(d0: Disk, d: Disk, a: int, p: nat, data: seq<Byte>, inodes: seq<Inode>)
    requires Rounds(d0, d, a, p, data) && d0.inodes[a].inUse
    requires p > BLOCK * d0.inodes[a].blockCount && (p / 512 > d0.inodes[a].blockCount || data == [])
    requires inodes == d.inodes[a := d.inodes[a].(size := Max(d.inodes[a].size, p + |data|))]
    ensures !Shape(inodes[a])
  {
  }

  lemma {:induction false} InUseShaped(inodes: seq<Inode>, owner: Owners, a: int)
    requires FsInv(inodes, owner, NIL) && 0 <= a < MAX_INODES && inodes[a].inUse
    ensures Shape(inodes[a])
  {
  }

  /** A write that starts in the first missing block stores a byte exactly when it has one and
      a block is free. */
  lemma {:induction false} StoresIff(n: Inode, p: nat, data: seq<Byte>, k: nat, owner: Owners)
    requires Shape(n) && p / 512 == n.blockCount && k <= |data|
    requires k == 0 && data != [] ==> p / 512 >= DIRECT || (NeedsBlock(n.direct, p) && !Room(owner))
    requires k > 0 && NeedsBlock(n.direct, p) ==> Room(owner)
    requires k > 0 ==> p / 512 < DIRECT
    ensures k > 0 <==> p / 512 < DIRECT && data != [] && Room(owner)
  {
  }
}
