/** Who owns which disk block, and which bytes a file holds: the two things every inode operation of
    fs.c must keep straight. */
module FsSpec {
  import opened Words
  import opened Bitmap

  const NDIRECT := 12
  const NINDIRECT := 128         // BSIZE / sizeof(uint)
  const MAXFILE := NDIRECT + NINDIRECT
  const ADDRBYTES := 52          // sizeof(addrs) == (NDIRECT + 1) * sizeof(uint)

  const T_DIR := 1
  const T_DEV := 3
  const T_SFILE := 4

  const NDEV := 10               // major device numbers

  /** `nmeta` is the number of boot, super, log, inode and bitmap blocks at the front of the disk. */
  datatype Superblock = Superblock(size: nat, nmeta: nat, ninodes: nat)

  /** An inode.  `addrs` is kept as its 52 bytes: thirteen block numbers, or a small file's data. */
  datatype Inode = Inode(typ: int, major: int, minor: int, nlink: int, size: nat, addrs: seq<byte>)

  predicate WellFormed(d: Inode) { |d.addrs| == ADDRBYTES }

  // ---------------------------------------------------------------- block pointers

  /** The pointers of an inode: slots 0..11 direct, slot 12 the indirect block, and slots 13..140 the
      entries of that block. */
  const NSLOTS := 1 + MAXFILE

  /** Free inodes and small files have no pointers, whatever bytes `addrs` holds. */
  predicate Mapped(d: Inode) { d.typ != 0 && d.typ != T_SFILE }

  function Slot(d: Inode, blocks: seq<Block>, j: nat): (b: nat)
    requires WellFormed(d) && j < NSLOTS
  {
    if !Mapped(d) then 0
    else if j <= NDIRECT then Word(d.addrs, j)
    else
      var ind := Word(d.addrs, NDIRECT);
      if ind == 0 || ind >= |blocks| then 0 else Word(blocks[ind], j - NDIRECT - 1)
  }

  /** The slot that maps file block bn. */
  function DataSlot(bn: nat): (j: nat)
    ensures j != NDIRECT
  {
    if bn < NDIRECT then bn else bn + 1
  }

  type Owners = map<nat, (nat, nat)>

  /** `owner` is exactly the table of non-zero pointers: each points into the data area, and no block
      is pointed to twice. */
  ghost predicate Owns(sb: Superblock, owner: Owners, inodes: seq<Inode>, blocks: seq<Block>) {
    && |blocks| == sb.size && 0 < sb.nmeta <= sb.size < 0x1_0000_0000
    && (forall i :: 0 <= i < |inodes| ==> WellFormed(inodes[i]))
    && (forall b :: b in owner ==>
         && sb.nmeta <= b < sb.size
         && owner[b].0 < |inodes| && owner[b].1 < NSLOTS
         && Slot(inodes[owner[b].0], blocks, owner[b].1) == b)
    && (forall i, j :: 0 <= i < |inodes| && 0 <= j < NSLOTS && Slot(inodes[i], blocks, j) != 0 ==>
         Slot(inodes[i], blocks, j) in owner && owner[Slot(inodes[i], blocks, j)] == (i, j))
  }

  /** The bitmap marks the metadata blocks and the owned blocks, and nothing else. */
  ghost predicate Marked(sb: Superblock, bitmap: seq<BitBlock>, owned: set<nat>) {
    && Spans(bitmap, sb.size)
    && forall b: nat :: b < sb.size ==> (Used(bitmap, b) <==> b < sb.nmeta || b in owned)
  }

  lemma MarkedMore(sb: Superblock, bitmap: seq<BitBlock>, owned: set<nat>, b: nat)
    requires Marked(sb, bitmap, owned) && sb.nmeta <= b < sb.size
    ensures Marked(sb, Mark(bitmap, b), owned + {b})
  {
    hide Used, Mark;
    forall c: nat | c < sb.size
      ensures Used(Mark(bitmap, b), c) <==> c < sb.nmeta || c in owned + {b}
    {
      MarkOne(bitmap, b, c);
    }
  }

  lemma MarkedLess(sb: Superblock, bitmap: seq<BitBlock>, owned: set<nat>, b: nat)
    requires Marked(sb, bitmap, owned) && sb.nmeta <= b < sb.size
    ensures Marked(sb, Clear(bitmap, b), owned - {b})
  {
    hide Used, Clear;
    forall c: nat | c < sb.size
      ensures Used(Clear(bitmap, b), c) <==> c < sb.nmeta || c in owned - {b}
    {
      ClearOne(bitmap, b, c);
    }
  }

  // ---------------------------------------------------------------- what one step does to the pointers

  /** The pointers of every inode but (i, j) are as before. */
  ghost predicate SameSlotsBut(inodes: seq<Inode>, blocks: seq<Block>, inodes': seq<Inode>, blocks': seq<Block>,
                               i: nat, j: nat)
  {
    && |inodes| == |inodes'|
    && forall x, y :: 0 <= x < |inodes| && 0 <= y < NSLOTS && (x, y) != (i, j) && WellFormed(inodes[x])
                      && WellFormed(inodes'[x]) ==>
         Slot(inodes'[x], blocks', y) == Slot(inodes[x], blocks, y)
  }

  /** Filling an empty pointer with an unowned block. */
  lemma FillSlot(sb: Superblock, owner: Owners, inodes: seq<Inode>, blocks: seq<Block>,
                 inodes': seq<Inode>, blocks': seq<Block>, i: nat, j: nat, b: nat)
    requires Owns(sb, owner, inodes, blocks) && i < |inodes| && j < NSLOTS
    requires b !in owner && sb.nmeta <= b < sb.size && |blocks'| == |blocks|
    requires Slot(inodes[i], blocks, j) == 0
    requires |inodes'| == |inodes| && forall x :: 0 <= x < |inodes'| ==> WellFormed(inodes'[x])
    requires SameSlotsBut(inodes, blocks, inodes', blocks', i, j) && Slot(inodes'[i], blocks', j) == b
    ensures Owns(sb, owner[b := (i, j)], inodes', blocks')
  {
    hide Slot;
    var owner' := owner[b := (i, j)];
    forall c | c in owner' ensures Slot(inodes'[owner'[c].0], blocks', owner'[c].1) == c {
      if c != b { assert Slot(inodes[owner[c].0], blocks, owner[c].1) == c; }
    }
    forall x, y | 0 <= x < |inodes'| && 0 <= y < NSLOTS && Slot(inodes'[x], blocks', y) != 0
      ensures Slot(inodes'[x], blocks', y) in owner' && owner'[Slot(inodes'[x], blocks', y)] == (x, y)
    {
      if (x, y) != (i, j) { assert Slot(inodes'[x], blocks', y) == Slot(inodes[x], blocks, y); }
    }
  }

  /** Writing a block that no inode uses as its indirect block moves no pointer. */
  lemma SlotsKept(sb: Superblock, owner: Owners, inodes: seq<Inode>, blocks: seq<Block>, b: nat, data: Block, x: nat,
                  y: nat)
    requires Owns(sb, owner, inodes, blocks) && b < |blocks| && x < |inodes| && y < NSLOTS
    requires b in owner ==> owner[b].1 != NDIRECT
    ensures Slot(inodes[x], blocks[b := data], y) == Slot(inodes[x], blocks, y)
  {
    var ind := Slot(inodes[x], blocks, NDIRECT);
    assert ind != 0 ==> owner[ind] == (x, NDIRECT);
  }

  // ---------------------------------------------------------------- file contents

  /** Byte k of a block-mapped file; unmapped blocks read as zero. */
  function FileByte(d: Inode, blocks: seq<Block>, k: nat): (v: byte)
    requires WellFormed(d)
  {
    if k >= MAXFILE * BSIZE then 0 else
      var b := Slot(d, blocks, DataSlot(k / BSIZE));
      if b == 0 || b >= |blocks| then 0 else blocks[b][k % BSIZE]
  }

  /** Where byte k of a file stands: in the block that entry k / 512 of `addrs` names, or, from the
      thirteenth block on, in the one that entry k / 512 - 12 of the block named by the last entry names. */
  lemma ByteStands(d: Inode, blocks: seq<Block>, k: nat)
    requires WellFormed(d) && d.typ != 0 && d.typ != 4 && k < 140 * 512
    ensures var n := k / 512;
      && (n < 12 && 0 < Word(d.addrs, n) < |blocks| ==> FileByte(d, blocks, k) == blocks[Word(d.addrs, n)][k % 512])
      && (n >= 12 && 0 < Word(d.addrs, 12) < |blocks| ==>
            && var b := Word(blocks[Word(d.addrs, 12)], n - 12);
            && (0 < b < |blocks| ==> FileByte(d, blocks, k) == blocks[b][k % 512]))
  {
    hide Word;
  }

  /** The size stays within the representation, and every block below it is mapped. */
  ghost predicate Sized(d: Inode, blocks: seq<Block>) {
    && WellFormed(d)
    && (d.typ == T_SFILE ==> d.size <= ADDRBYTES)
    && (Mapped(d) ==>
         d.size <= MAXFILE * BSIZE && MappedBelow(d, blocks, d.size))
  }

  /** Every file block that starts below byte n is mapped. */
  ghost predicate MappedBelow(d: Inode, blocks: seq<Block>, n: nat)
    requires WellFormed(d)
  {
    n <= MAXFILE * BSIZE && forall bn: nat :: bn * BSIZE < n ==> Slot(d, blocks, DataSlot(bn)) != 0
  }

  /** The bytes of a file, in either representation. */
  function Content(d: Inode, blocks: seq<Block>): (s: seq<byte>)
    requires WellFormed(d) && (d.typ == T_SFILE ==> d.size <= ADDRBYTES)
    ensures |s| == d.size
  {
    if d.typ == T_SFILE then d.addrs[..d.size]
    else seq(d.size, k requires 0 <= k < d.size => FileByte(d, blocks, k))
  }

  /** `data` written over `s` from position off, extending it if need be. */
  function Splice(s: seq<byte>, off: nat, data: seq<byte>): (r: seq<byte>)
    requires off <= |s|
    ensures |r| == if off + |data| > |s| then off + |data| else |s|
  {
    s[..off] + data + if off + |data| < |s| then s[off + |data|..] else []
  }

  ghost predicate SameBytes(inodes: seq<Inode>, blocks: seq<Block>, inodes': seq<Inode>, blocks': seq<Block>) {
    && |inodes| == |inodes'|
    && forall x, k: nat :: 0 <= x < |inodes| && WellFormed(inodes[x]) && WellFormed(inodes'[x]) ==>
         FileByte(inodes'[x], blocks', k) == FileByte(inodes[x], blocks, k)
  }

  /** Mapping a zeroed block changes no byte of any file. */
  lemma FillKeepsBytes(sb: Superblock, owner: Owners, inodes: seq<Inode>, blocks: seq<Block>,
                       inodes': seq<Inode>, blocks': seq<Block>, i: nat, j: nat, b: nat)
    requires Owns(sb, owner, inodes, blocks) && i < |inodes| && j < NSLOTS
    requires b !in owner && b < sb.size && |blocks'| == |blocks| && blocks'[b] == Zeros(BSIZE)
    requires forall c :: c in owner && owner[c].1 != NDIRECT ==> blocks'[c] == blocks[c]
    requires Slot(inodes[i], blocks, j) == 0
    requires |inodes'| == |inodes| && forall x :: 0 <= x < |inodes'| ==> WellFormed(inodes'[x])
    requires SameSlotsBut(inodes, blocks, inodes', blocks', i, j) && Slot(inodes'[i], blocks', j) == b
    ensures SameBytes(inodes, blocks, inodes', blocks')
  {
    hide Slot;
    forall x, k: nat | 0 <= x < |inodes| ensures FileByte(inodes'[x], blocks', k) == FileByte(inodes[x], blocks, k) {
      if k < MAXFILE * BSIZE {
        var y := DataSlot(k / BSIZE);
        if (x, y) != (i, j) {
          var c := Slot(inodes[x], blocks, y);
          assert Slot(inodes'[x], blocks', y) == c;
          assert c != 0 ==> owner[c] == (x, y);
        }
      }
    }
  }

  /** Rewriting a mapped data block moves no pointer ... */
  lemma RewriteKeepsSlots(sb: Superblock, owner: Owners, inodes: seq<Inode>, blocks: seq<Block>, i: nat, bn: nat,
                          data: Block)
    requires Owns(sb, owner, inodes, blocks) && i < |inodes| && bn < MAXFILE
    requires Slot(inodes[i], blocks, DataSlot(bn)) != 0
    ensures var b := Slot(inodes[i], blocks, DataSlot(bn));
      && b < |blocks|
      && Owns(sb, owner, inodes, blocks[b := data])
      && forall x, y :: 0 <= x < |inodes| && 0 <= y < NSLOTS ==>
           Slot(inodes[x], blocks[b := data], y) == Slot(inodes[x], blocks, y)
  {
    var b := Slot(inodes[i], blocks, DataSlot(bn));
    assert owner[b] == (i, DataSlot(bn));
    var blocks' := blocks[b := data];
    forall x, y | 0 <= x < |inodes| && 0 <= y < NSLOTS
      ensures Slot(inodes[x], blocks', y) == Slot(inodes[x], blocks, y)
    {
      SlotsKept(sb, owner, inodes, blocks, b, data, x, y);
    }
  }

  /** ... and changes only that block's bytes of that file. */
  lemma RewriteByte(sb: Superblock, owner: Owners, inodes: seq<Inode>, blocks: seq<Block>, i: nat, bn: nat, data: Block,
                    x: nat, k: nat)
    requires Owns(sb, owner, inodes, blocks) && i < |inodes| && bn < MAXFILE && x < |inodes|
    requires Slot(inodes[i], blocks, DataSlot(bn)) != 0
    ensures Slot(inodes[i], blocks, DataSlot(bn)) < |blocks|
    ensures FileByte(inodes[x], blocks[Slot(inodes[i], blocks, DataSlot(bn)) := data], k) ==
      if x == i && k / BSIZE == bn then data[k % BSIZE] else FileByte(inodes[x], blocks, k)
  {
    RewriteKeepsSlots(sb, owner, inodes, blocks, i, bn, data);
    var b := Slot(inodes[i], blocks, DataSlot(bn));
    assert owner[b] == (i, DataSlot(bn));
    if k < MAXFILE * BSIZE {
      var c := Slot(inodes[x], blocks, DataSlot(k / BSIZE));
      assert c != 0 ==> owner[c] == (x, DataSlot(k / BSIZE));
      assert Slot(inodes[x], blocks[b := data], DataSlot(k / BSIZE)) == c;
    }
  }

  // ---------------------------------------------------------------- the allocations bmap makes

  function SetAddr(d: Inode, j: nat, b: nat): (r: Inode)
    requires WellFormed(d) && j <= NDIRECT && b < 0x1_0000_0000
    ensures WellFormed(r)
  {
    d.(addrs := SetWord(d.addrs, j, b))
  }

  /** A fresh zeroed block b goes into a pointer held in the inode itself. */
  lemma MapInInode(sb: Superblock, owner: Owners, inodes: seq<Inode>, blocks: seq<Block>, i: nat, j: nat, b: nat)
    requires Owns(sb, owner, inodes, blocks) && i < |inodes| && Mapped(inodes[i]) && j <= NDIRECT
    requires Slot(inodes[i], blocks, j) == 0 && b !in owner && sb.nmeta <= b < sb.size
    ensures var inodes', blocks' := inodes[i := SetAddr(inodes[i], j, b)], blocks[b := Zeros(BSIZE)];
      && Owns(sb, owner[b := (i, j)], inodes', blocks')
      && SameBytes(inodes, blocks, inodes', blocks')
      && SameSlotsBut(inodes, blocks, inodes', blocks', i, j)
      && Slot(inodes'[i], blocks', j) == b
  {
    var inodes', blocks' := inodes[i := SetAddr(inodes[i], j, b)], blocks[b := Zeros(BSIZE)];
    forall x, y | 0 <= x < |inodes| && 0 <= y < NSLOTS && (x, y) != (i, j)
      ensures Slot(inodes'[x], blocks', y) == Slot(inodes[x], blocks, y)
    {
      MapInInodeAt(sb, owner, inodes, blocks, i, j, b, x, y);
    }
    assert SameSlotsBut(inodes, blocks, inodes', blocks', i, j);
    FillSlot(sb, owner, inodes, blocks, inodes', blocks', i, j, b);
    FillKeepsBytes(sb, owner, inodes, blocks, inodes', blocks', i, j, b);
  }

  lemma MapInInodeAt(sb: Superblock, owner: Owners, inodes: seq<Inode>, blocks: seq<Block>, i: nat, j: nat, b: nat,
                     x: nat, y: nat)
    requires Owns(sb, owner, inodes, blocks) && i < |inodes| && Mapped(inodes[i]) && j <= NDIRECT
    requires Slot(inodes[i], blocks, j) == 0 && b !in owner && sb.nmeta <= b < sb.size
    requires x < |inodes| && y < NSLOTS && (x, y) != (i, j)
    ensures Slot(inodes[i := SetAddr(inodes[i], j, b)][x], blocks[b := Zeros(BSIZE)], y) == Slot(inodes[x], blocks, y)
  {
    hide SetWord, Word;
    SlotsKept(sb, owner, inodes, blocks, b, Zeros(BSIZE), x, y);
    if x == i && j == NDIRECT && y > NDIRECT {
      ZeroWords(BSIZE, y - NDIRECT - 1);
    }
  }

  /** A fresh zeroed block b goes into entry n of the indirect block. */
  lemma MapInIndirect(sb: Superblock, owner: Owners, inodes: seq<Inode>, blocks: seq<Block>, i: nat, n: nat, b: nat)
    requires Owns(sb, owner, inodes, blocks) && i < |inodes| && n < NINDIRECT
    requires Slot(inodes[i], blocks, NDIRECT) != 0 && Slot(inodes[i], blocks, NDIRECT + 1 + n) == 0
    requires b !in owner && sb.nmeta <= b < sb.size
    ensures var ind := Slot(inodes[i], blocks, NDIRECT);
      && ind < |blocks|
      && var blocks' := blocks[b := Zeros(BSIZE)][ind := SetWord(blocks[ind], n, b)];
      && Owns(sb, owner[b := (i, NDIRECT + 1 + n)], inodes, blocks')
      && SameBytes(inodes, blocks, inodes, blocks')
      && SameSlotsBut(inodes, blocks, inodes, blocks', i, NDIRECT + 1 + n)
      && Slot(inodes[i], blocks', NDIRECT + 1 + n) == b
  {
    var ind, j := Slot(inodes[i], blocks, NDIRECT), NDIRECT + 1 + n;
    assert owner[ind] == (i, NDIRECT);
    var blocks' := blocks[b := Zeros(BSIZE)][ind := SetWord(blocks[ind], n, b)];
    forall x, y | 0 <= x < |inodes| && 0 <= y < NSLOTS && (x, y) != (i, j)
      ensures Slot(inodes[x], blocks', y) == Slot(inodes[x], blocks, y)
    {
      MapInIndirectAt(sb, owner, inodes, blocks, i, n, b, x, y);
    }
    assert SameSlotsBut(inodes, blocks, inodes, blocks', i, j);
    FillSlot(sb, owner, inodes, blocks, inodes, blocks', i, j, b);
    FillKeepsBytes(sb, owner, inodes, blocks, inodes, blocks', i, j, b);
  }

  lemma MapInIndirectAt(sb: Superblock, owner: Owners, inodes: seq<Inode>, blocks: seq<Block>, i: nat, n: nat, b: nat,
                        x: nat, y: nat)
    requires Owns(sb, owner, inodes, blocks) && i < |inodes| && n < NINDIRECT
    requires Slot(inodes[i], blocks, NDIRECT) != 0 && b !in owner && sb.nmeta <= b < sb.size
    requires x < |inodes| && y < NSLOTS && (x, y) != (i, NDIRECT + 1 + n)
    ensures Slot(inodes[i], blocks, NDIRECT) < |blocks|
    ensures var ind := Slot(inodes[i], blocks, NDIRECT);
      Slot(inodes[x], blocks[b := Zeros(BSIZE)][ind := SetWord(blocks[ind], n, b)], y) == Slot(inodes[x], blocks, y)
  {
    hide SetWord, Word;
    var ind := Slot(inodes[i], blocks, NDIRECT);
    assert owner[ind] == (i, NDIRECT);
    var mid := blocks[b := Zeros(BSIZE)];
    var other := Slot(inodes[x], blocks, NDIRECT);
    assert other != 0 ==> owner[other] == (x, NDIRECT);
  }

  /** Replacing an inode by one with the same pointers. */
  lemma ReplaceInode(sb: Superblock, owner: Owners, inodes: seq<Inode>, blocks: seq<Block>, i: nat, d: Inode)
    requires Owns(sb, owner, inodes, blocks) && i < |inodes| && WellFormed(d)
    requires forall y :: 0 <= y < NSLOTS ==> Slot(d, blocks, y) == Slot(inodes[i], blocks, y)
    ensures Owns(sb, owner, inodes[i := d], blocks)
  {
    hide Slot;
  }

  ghost predicate AllSized(inodes: seq<Inode>, blocks: seq<Block>) {
    forall i :: 0 <= i < |inodes| ==> Sized(inodes[i], blocks)
  }

  /** Every inode but ip is as before, contents included. */
  ghost predicate OtherFiles(inodes: seq<Inode>, blocks: seq<Block>, inodes': seq<Inode>, blocks': seq<Block>,
                             ip: nat)
  {
    && AllSized(inodes, blocks) && |inodes'| == |inodes|
    && forall x :: 0 <= x < |inodes| && x != ip ==>
         inodes'[x] == inodes[x] && Content(inodes'[x], blocks') == Content(inodes[x], blocks)
  }

  // ---------------------------------------------------------------- giving blocks back

  /** The owners left when inode ip gives up everything. */
  ghost function Without(owner: Owners, ip: nat): (r: Owners) {
    map b | b in owner && owner[b].0 != ip :: owner[b]
  }

  /** Blocks of inode ip in slots below lo, or in indirect entries below hi. */
  ghost function Freed(owner: Owners, ip: nat, lo: nat, hi: nat): (r: set<nat>) {
    set b | b in owner && owner[b].0 == ip && (owner[b].1 < lo || NDIRECT < owner[b].1 < hi)
  }

  /** An inode left without pointers gives up exactly its own blocks. */
  lemma DropInode(sb: Superblock, owner: Owners, inodes: seq<Inode>, blocks: seq<Block>, i: nat, d: Inode)
    requires Owns(sb, owner, inodes, blocks) && i < |inodes| && WellFormed(d)
    requires forall y :: 0 <= y < NSLOTS ==> Slot(d, blocks, y) == 0
    ensures Owns(sb, Without(owner, i), inodes[i := d], blocks)
  {
    hide Slot;
  }

  /** Passing slot y adds its block, if it has one, to the freed set; the block was not there yet. */
  lemma PassSlot(sb: Superblock, owner: Owners, inodes: seq<Inode>, blocks: seq<Block>, ip: nat, y: nat,
                 freed: set<nat>, freed': set<nat>)
    requires Owns(sb, owner, inodes, blocks) && ip < |inodes| && y < NSLOTS
    requires forall b :: b in freed' <==> b in freed || (b in owner && owner[b] == (ip, y))
    requires forall b :: b in freed ==> b in owner && owner[b] != (ip, y)
    ensures var b := Slot(inodes[ip], blocks, y);
      if b == 0 then freed' == freed else b in owner && b !in freed && sb.nmeta <= b < sb.size && freed' == freed + {b}
  {
    hide Slot;
    var b := Slot(inodes[ip], blocks, y);
    if b == 0 {
      forall c | c in owner ensures owner[c] != (ip, y) {
        assert Slot(inodes[owner[c].0], blocks, owner[c].1) == c;
      }
      assert freed' == freed;
    } else {
      assert owner[b] == (ip, y);
      forall c | c in owner && owner[c] == (ip, y) ensures c == b {
        assert Slot(inodes[owner[c].0], blocks, owner[c].1) == c;
      }
      assert freed' == freed + {b};
    }
  }
}
