/** fs.c: block allocator, inode table and file contents, updated in place. */
module FileSystem {
  import opened Words
  import opened Bitmap
  import opened FsSpec
  import opened FileContent
  import opened Wrappers

  function Min(a: int, b: int): (m: int) { if a < b then a else b }

  class FileSystem {
    const sb: Superblock
    var bitmap: seq<BitBlock>
    var blocks: seq<Block>     // every disk block, as the buffer cache shows it
    var inodes: seq<Inode>     // in-memory inodes
    var dinodes: seq<Inode>    // inodes on disk
    ghost var owner: Owners

    ghost predicate Consistent()
      reads this
    {
      Owns(sb, owner, inodes, blocks) && Marked(sb, bitmap, owner.Keys)
    }

    /** Between operations: the bitmap marks exactly what live inodes own, sizes are backed by mapped
        blocks, and every in-memory inode equals its disk copy. */
    ghost predicate Valid()
      reads this
    {
      && Consistent()
      && |inodes| == sb.ninodes && inodes == dinodes
      && AllSized(inodes, blocks)
    }

    /** A formatted disk, as mkfs makes it before the first file: every block zero, the metadata blocks
        marked, every inode free. */
    constructor (sb: Superblock, nbitmap: nat)
      requires 0 < sb.nmeta <= sb.size < 0x1_0000_0000 && sb.size <= nbitmap * BPB
      ensures Valid() && this.sb == sb && owner == map[] && forall i :: 0 <= i < |inodes| ==> inodes[i].typ == 0
    {
      hide Used, Slot, FileByte;
      this.sb := sb;
      var marked := MarkFirst(sb.nmeta, nbitmap);
      bitmap := marked;
      blocks := seq(sb.size, _ => Zeros(BSIZE));
      inodes := seq(sb.ninodes, _ => Inode(0, 0, 0, 0, 0, Zeros(ADDRBYTES)));
      dinodes := seq(sb.ninodes, _ => Inode(0, 0, 0, 0, 0, Zeros(ADDRBYTES)));
      owner := map[];
      new;
      forall i | 0 <= i < |inodes|
        ensures Sized(inodes[i], blocks) && forall j :: 0 <= j < NSLOTS ==> Slot(inodes[i], blocks, j) == 0
      {
        ZeroSlots(inodes[i], blocks);
      }
    }

    /** No block is left: the one reason for balloc's panic. */
    ghost predicate DiskFull()
      reads this
    {
      Spans(bitmap, sb.size) && forall c: nat :: c < sb.size ==> Used(bitmap, c)
    }

    /** balloc: the lowest free block, zeroed and marked, or a panic when there is none. */
    method Balloc() returns (r: Option<nat>)
      requires Spans(bitmap, sb.size) && |blocks| == sb.size
      modifies this`bitmap, this`blocks
      ensures r.None? ==>
        bitmap == old(bitmap) && blocks == old(blocks) && DiskFull()
      ensures r.Some? ==>
        && r.value < sb.size && !Used(old(bitmap), r.value)
        && (forall c: nat :: c < r.value ==> Used(old(bitmap), c))
        && bitmap == Mark(old(bitmap), r.value) && blocks == old(blocks)[r.value := Zeros(BSIZE)]
    {
      hide Bit, WithBit;
      var b := 0;
      while b < sb.size
        invariant b % BPB == 0
        invariant bitmap == old(bitmap) && blocks == old(blocks)
        invariant forall c: nat :: c < b && c < sb.size ==> Used(bitmap, c)
      {
        var data := bitmap[b / BPB];
        var bi := 0;
        while bi < BPB && b + bi < sb.size
          invariant 0 <= bi <= BPB
          invariant bitmap == old(bitmap) && blocks == old(blocks)
          invariant forall c: nat :: c < b + bi && c < sb.size ==> Used(bitmap, c)
        {
          BitPosition(b, bi);
          if !Bit(data[bi / 8], bi % 8) {
            bitmap := bitmap[b / BPB := data[bi / 8 := WithBit(data[bi / 8], bi % 8)]];
            blocks := blocks[b + bi := Zeros(BSIZE)];
            return Some(b + bi);
          }
          bi := bi + 1;
        }
        b := b + BPB;
      }
      return None;
    }

    /** bfree: unmark a block; freeing a free block is a panic. */
    method Bfree(b: nat) returns (ok: bool)
      requires Spans(bitmap, sb.size) && b < sb.size
      modifies this`bitmap
      ensures ok <==> Used(old(bitmap), b)
      ensures bitmap == if ok then Clear(old(bitmap), b) else old(bitmap)
    {
      hide Bit, WithoutBit;
      var data := bitmap[b / BPB];
      var bi := b % BPB;
      assert bi % 8 == b % 8;
      if !Bit(data[bi / 8], bi % 8) {
        return false;
      }
      bitmap := bitmap[b / BPB := data[bi / 8 := WithoutBit(data[bi / 8], bi % 8)]];
      return true;
    }

    /** A block fit to be mapped: balloc under the ownership invariant. */
    method Fresh() returns (r: Option<nat>)
      requires Consistent()
      modifies this`bitmap, this`blocks
      ensures r.Some? ==>
        && r.value !in owner && sb.nmeta <= r.value < sb.size
        && Marked(sb, bitmap, owner.Keys + {r.value}) && blocks == old(blocks)[r.value := Zeros(BSIZE)]
      ensures r.None? ==> DiskFull()
    {
      hide Used, Mark;
      r := Balloc();
      if r.Some? {
        MarkedMore(sb, old(bitmap), owner.Keys, r.value);
      }
    }

    /** Map a fresh block at an empty pointer of the inode itself. */
    method MapSlot(ip: nat, j: nat) returns (r: Option<nat>)
      requires Consistent() && ip < |inodes| && Mapped(inodes[ip]) && j <= NDIRECT
      requires Slot(inodes[ip], blocks, j) == 0
      modifies this`bitmap, this`blocks, this`inodes, this`owner
      ensures r.Some? ==>
        && Consistent() && Grown(old(inodes), old(blocks), inodes, blocks, ip)
        && r.value == Slot(inodes[ip], blocks, j) != 0 && Mapped(inodes[ip])
      ensures r.None? ==> DiskFull()
    {
      hide FileSystem.DiskFull, Slot, Marked, SetWord, FileByte;
      r := Fresh();
      if r.Some? {
        MapInInode(sb, owner, inodes, old(blocks), ip, j, r.value);
        owner := owner[r.value := (ip, j)];
        inodes := inodes[ip := SetAddr(inodes[ip], j, r.value)];
        assert owner.Keys == old(owner.Keys) + {r.value};
      }
    }

    /** Look up entry n of the indirect block, mapping a fresh block if it is empty. */
    method MapEntry(ip: nat, ind: nat, n: nat) returns (r: Option<nat>)
      requires Consistent() && ip < |inodes| && n < NINDIRECT
      requires ind == Slot(inodes[ip], blocks, NDIRECT) != 0
      modifies this`bitmap, this`blocks, this`owner
      ensures r.Some? ==>
        && Consistent() && Grown(inodes, old(blocks), inodes, blocks, ip)
        && r.value == Slot(inodes[ip], blocks, NDIRECT + 1 + n) != 0
      ensures r.None? ==> DiskFull()
      ensures old(Slot(inodes[ip], blocks, NDIRECT + 1 + n)) != 0 ==>
        r.Some? && blocks == old(blocks) && bitmap == old(bitmap) && owner == old(owner)
    {
      hide FileSystem.DiskFull, Marked, FileByte, SetWord;
      GrownNot(inodes, blocks, ip);
      var a := blocks[ind];
      var addr := Word(a, n);
      if addr == 0 {
        r := Fresh();
        if r.Some? {
          MapInIndirect(sb, owner, inodes, old(blocks), ip, n, r.value);
          owner := owner[r.value := (ip, NDIRECT + 1 + n)];
          blocks := blocks[ind := SetWord(a, n, r.value)];
          assert owner.Keys == old(owner.Keys) + {r.value};
        }
        return;
      }
      return Some(addr);
    }

    /** bmap: the disk block of file block bn, mapping a zeroed one if there is none.  No pointer that
        was set moves and no byte of any file changes; a mapped block is simply looked up. */
    method Bmap(ip: nat, bn: nat) returns (r: Option<nat>)
      requires Consistent() && ip < |inodes| && Mapped(inodes[ip]) && bn < MAXFILE
      modifies this`bitmap, this`blocks, this`inodes, this`owner
      ensures r.Some? ==>
        && Consistent() && Grown(old(inodes), old(blocks), inodes, blocks, ip)
        && r.value == Slot(inodes[ip], blocks, DataSlot(bn)) != 0
      ensures r.None? ==> DiskFull()
      ensures old(Slot(inodes[ip], blocks, DataSlot(bn))) != 0 ==>
        r.Some? && inodes == old(inodes) && blocks == old(blocks) && bitmap == old(bitmap) && owner == old(owner)
    {
      hide FileSystem.DiskFull, Slot, Marked, FileByte;
      GrownNot(inodes, blocks, ip);
      if bn < NDIRECT {
        InInode(inodes[ip], blocks, bn);
        var addr := Word(inodes[ip].addrs, bn);
        if addr == 0 {
          r := MapSlot(ip, bn);
          return;
        }
        return Some(addr);
      }
      var n := bn - NDIRECT;
      InInode(inodes[ip], blocks, NDIRECT);
      var ind := Word(inodes[ip].addrs, NDIRECT);
      if ind == 0 {
        NoEntries(inodes[ip], blocks, NDIRECT + 1 + n);
        var s := MapSlot(ip, NDIRECT);
        if s.None? {
          return None;
        }
        ind := s.value;
      }
      ghost var inodes1, blocks1 := inodes, blocks;
      r := MapEntry(ip, ind, n);
      if r.Some? {
        GrownTwice(old(inodes), old(blocks), inodes1, blocks1, inodes, blocks, ip);
      }
    }

    /** iupdate: copy an in-memory inode to disk. */
    method IUpdate(ip: nat)
      requires ip < |inodes| == |dinodes|
      modifies this`dinodes
      ensures dinodes == old(dinodes)[ip := inodes[ip]]
    {
      dinodes := dinodes[ip := inodes[ip]];
    }

    /** readi: -1 for an offset beyond the end or a wrapping range; otherwise the bytes of the file from
        off, cut at its size.  Nothing is allocated on the way.  `driver` is the answer of the device's
        read function, if it has one. */
    method Readi(ip: nat, off: nat, n: nat, driver: Option<(int, seq<byte>)>) returns (r: int, dst: seq<byte>)
      requires Valid() && ip < |inodes| && inodes[ip].typ != 0
      requires off < 0x1_0000_0000 && n < 0x1_0000_0000
      modifies this`bitmap, this`blocks, this`inodes, this`owner
      ensures inodes == old(inodes) && blocks == old(blocks) && bitmap == old(bitmap) && owner == old(owner)
      ensures var d := inodes[ip];
        if d.typ == T_DEV then (r, dst) == if 0 <= d.major < NDEV && driver.Some? then driver.value else (-1, [])
        else if off > d.size || off + n >= 0x1_0000_0000 then r == -1 && dst == []
        else r == Min(n, d.size - off) && dst == Content(d, blocks)[off..off + r]
    {
      var d := inodes[ip];
      if d.typ == T_DEV {
        if d.major < 0 || d.major >= NDEV || driver.None? {
          return -1, [];
        }
        return driver.value.0, driver.value.1;
      }
      if off > d.size || off + n >= 0x1_0000_0000 {
        return -1, [];
      }
      var len := n;
      if off + n > d.size {
        len := d.size - off;
      }
      if d.typ == T_SFILE {
        dst := d.addrs[off..off + len];
        Cut(d.addrs, d.size, off, off + len);
      } else {
        dst := ReadBlocks(ip, off, len);
      }
      return len, dst;
    }

    /** The block loop of readi. */
    method ReadBlocks(ip: nat, off: nat, len: nat) returns (dst: seq<byte>)
      requires Consistent() && ip < |inodes| && Sized(inodes[ip], blocks) && Mapped(inodes[ip])
      requires off + len <= inodes[ip].size
      modifies this`bitmap, this`blocks, this`inodes, this`owner
      ensures inodes == old(inodes) && blocks == old(blocks) && bitmap == old(bitmap) && owner == old(owner)
      ensures dst == Content(inodes[ip], blocks)[off..off + len]
    {
      hide Slot, FileByte, Marked, Owns, Content, MappedBelow;
      ghost var all := Content(inodes[ip], blocks);
      dst := [];
      var tot := 0;
      while tot < len
        invariant 0 <= tot <= len
        invariant inodes == old(inodes) && blocks == old(blocks) && bitmap == old(bitmap) && owner == old(owner)
        invariant dst == all[off..off + tot]
      {
        var o := off + tot;
        var m := Min(len - tot, BSIZE - o % BSIZE);
        ReadChunk(sb, owner, inodes, blocks, ip, o, m);
        var sector := Bmap(ip, o / BSIZE);
        assert sector.value != 0;
        dst := dst + blocks[sector.value][o % BSIZE..o % BSIZE + m];
        tot := tot + m;
      }
    }

    /** writei: -1 for an offset beyond the end or a wrapping range; otherwise as many bytes as the
        representation has room for are spliced into the file, and no other file changes.  `driver` is the
        answer of the device's write function, if it has one. */
    method Writei(ip: nat, src: seq<byte>, off: nat, n: nat, driver: Option<int>) returns (r: Option<int>)
      requires Valid() && ip < |inodes| && inodes[ip].typ != 0
      requires off < 0x1_0000_0000 && n < 0x1_0000_0000 && n <= |src|
      modifies this`bitmap, this`blocks, this`inodes, this`dinodes, this`owner
      ensures r.Some? ==> Valid()
      ensures var d := old(inodes[ip]);
        if d.typ == T_DEV
        then
          && r == Some(if 0 <= d.major < NDEV && driver.Some? then driver.value else -1)
          && inodes == old(inodes) && blocks == old(blocks) && bitmap == old(bitmap)
        else if off > d.size || off + n >= 0x1_0000_0000
        then r == Some(-1) && inodes == old(inodes) && blocks == old(blocks) && bitmap == old(bitmap)
        else r.Some? ==>
          && r.value == Min(n, (if d.typ == 4 then 52 else 140 * 512) - off)
          && OtherFiles(old(inodes), old(blocks), inodes, blocks, ip)
          && inodes[ip] == d.(addrs := inodes[ip].addrs, size := inodes[ip].size)
          && Content(inodes[ip], blocks) == Splice(old(Content(inodes[ip], blocks)), off, src[..r.value])
      ensures r.None? ==> old(inodes[ip].typ) != T_SFILE && DiskFull()
    {
      hide FileSystem.DiskFull, Slot, FileByte, Marked, Content, Splice;
      var d := inodes[ip];
      if d.typ == T_DEV {
        if d.major < 0 || d.major >= NDEV || driver.None? {
          return Some(-1);
        }
        return driver;
      }
      if off > d.size || off + n >= 0x1_0000_0000 {
        return Some(-1);
      }
      var len := n;
      if off + len > MAXFILE * BSIZE {
        len := MAXFILE * BSIZE - off;
      }
      if d.typ == T_SFILE && off + len > ADDRBYTES {
        len := ADDRBYTES - off;
      }
      ghost var size := if off + len > d.size then off + len else d.size;
      if d.typ == T_SFILE {
        SmallWriteDone(sb, owner, inodes, blocks, ip, off, src[..len], size);
        inodes := inodes[ip := d.(addrs := Splice(d.addrs, off, src[..len]))];
      } else {
        var ok := WriteBlocks(ip, src, off, len);
        if !ok {
          return None;
        }
        BlockWriteDone(sb, owner, old(inodes), old(blocks), inodes, blocks, ip, off, src[..len], size);
      }
      if d.typ == T_SFILE || (len > 0 && off + len > d.size) {
        if len > 0 && off + len > d.size {
          inodes := inodes[ip := inodes[ip].(size := off + len)];
        }
        IUpdate(ip);
        assert inodes == old(inodes)[ip := inodes[ip]] == dinodes;
      } else {
        assert inodes == inodes[ip := inodes[ip].(size := size)];
      }
      return Some(len);
    }

    /** What writei accepts, readi gives back. */
    method WriteThenRead(ip: nat, src: seq<byte>, off: nat, n: nat) returns (w: Option<int>, dst: seq<byte>)
      requires Valid() && ip < |inodes| && inodes[ip].typ != 0 && inodes[ip].typ != T_DEV
      requires off <= inodes[ip].size && off + n < 0x1_0000_0000 && n <= |src|
      modifies this`bitmap, this`blocks, this`inodes, this`dinodes, this`owner
      ensures w.Some? ==> Valid() && 0 <= w.value <= n && dst == src[..w.value]
      ensures w.None? ==> DiskFull()
    {
      assert Sized(inodes[ip], blocks);
      hide FileSystem.DiskFull, Content, AllSized, Owns, Marked;
      dst := [];
      w := Writei(ip, src, off, n, None);
      if w.Some? {
        var r;
        r, dst := Readi(ip, off, w.value, None);
      }
    }

    /** The block loop of writei; false is the panic for want of blocks. */
    method WriteBlocks(ip: nat, src: seq<byte>, off: nat, n: nat) returns (ok: bool)
      requires Consistent() && ip < |inodes| && Sized(inodes[ip], blocks) && Mapped(inodes[ip])
      requires off <= inodes[ip].size && off + n <= MAXFILE * BSIZE && n <= |src|
      modifies this`bitmap, this`blocks, this`inodes, this`owner
      ensures ok ==> Consistent() && Wrote(old(inodes), old(blocks), inodes, blocks, ip, off, src[..n])
      ensures ok ==> MappedBelow(inodes[ip], blocks, off + n)
      ensures ok && off + n <= old(inodes[ip].size) ==> inodes == old(inodes)
      ensures !ok ==> DiskFull()
    {
      hide FileSystem.DiskFull, Partial, Owns, Marked, Wrote, MappedBelow, Sized, Mapped, WellFormed;
      StartWrite(sb, bitmap, owner, inodes, blocks, ip, off);
      var tot := 0;
      assert src[..0] == [];
      while tot < n
        invariant 0 <= tot <= n
        invariant Partial(sb, bitmap, owner, old(inodes), old(blocks), inodes, blocks, ip, off, src[..tot])
      {
        var m := Min(n - tot, BSIZE - (off + tot) % BSIZE);
        ok := WriteChunk(ip, off, src[..tot], src[tot..tot + m], old(inodes), old(blocks), tot);
        if !ok {
          return;
        }
        Paste(src, tot, m);
        tot := tot + m;
      }
      EndWrite(sb, bitmap, owner, old(inodes), old(blocks), inodes, blocks, ip, off, src[..n]);
      return true;
    }

    /** One turn of that loop: map the block, overlay the chunk, write it back. */
    method WriteChunk(ip: nat, off: nat, ghost data: seq<byte>, chunk: seq<byte>,
                      ghost inodes0: seq<Inode>, ghost blocks0: seq<Block>, tot: nat) returns (ok: bool)
      requires Partial(sb, bitmap, owner, inodes0, blocks0, inodes, blocks, ip, off, data) && tot == |data|
      requires 0 < |chunk| <= BSIZE - (off + tot) % BSIZE && off + tot + |chunk| <= MAXFILE * BSIZE
      modifies this`bitmap, this`blocks, this`inodes, this`owner
      ensures ok ==> Partial(sb, bitmap, owner, inodes0, blocks0, inodes, blocks, ip, off, data + chunk)
      ensures !ok ==> DiskFull()
    {
      hide FileSystem.DiskFull, Slot, FileByte, Marked;
      var o := off + tot;
      ghost var inodes1, blocks1 := inodes, blocks;
      assert o < inodes0[ip].size ==> Slot(inodes[ip], blocks, DataSlot(o / BSIZE)) != 0 by {
        if o < inodes0[ip].size { assert o / BSIZE * BSIZE < inodes0[ip].size; }
      }
      var sector := Bmap(ip, o / BSIZE);
      if sector.None? {
        return false;
      }
      WroteGrown(inodes0, blocks0, inodes1, blocks1, inodes, blocks, ip, off, data);
      ghost var blocks2 := blocks;
      WroteMore(sb, owner, inodes0, blocks0, inodes, blocks, ip, off, data, chunk, o, sector.value);
      blocks := blocks[sector.value := Overlay(blocks[sector.value], o % BSIZE, chunk)];
      BlocksBelow(inodes1[ip], blocks1, inodes[ip], blocks2, inodes[ip], blocks, o, |chunk|);
      return true;
    }

    /** Free the block of one slot, if it has one.  The "freeing free block" panic is out of reach. */
    method FreeSlot(ip: nat, addr: nat, y: nat, ghost inodes0: seq<Inode>, ghost freed: set<nat>,
                    ghost freed': set<nat>)
      requires Owns(sb, owner, inodes0, blocks) && ip < |inodes0| && y < NSLOTS
      requires addr == Slot(inodes0[ip], blocks, y)
      requires forall b :: b in freed' <==> b in freed || (b in owner && owner[b] == (ip, y))
      requires forall b :: b in freed ==> b in owner && owner[b] != (ip, y)
      requires Marked(sb, bitmap, owner.Keys - freed)
      modifies this`bitmap
      ensures Marked(sb, bitmap, owner.Keys - freed')
    {
      hide Slot, Used, Clear, Owns;
      PassSlot(sb, owner, inodes0, blocks, ip, y, freed, freed');
      if addr != 0 {
        MarkedLess(sb, bitmap, owner.Keys - freed, addr);
        var ok := Bfree(addr);
        assert ok;
        assert owner.Keys - freed - {addr} == owner.Keys - freed';
      }
    }

    /** itrunc's first loop. */
    method FreeDirect(ip: nat)
      requires Consistent() && ip < |inodes| && Mapped(inodes[ip])
      modifies this`bitmap, this`inodes
      ensures Marked(sb, bitmap, owner.Keys - Freed(owner, ip, NDIRECT, NDIRECT + 1))
      ensures Cleared(old(inodes), inodes, ip, NDIRECT)
    {
      hide Slot, Marked, SetAddr, Word;
      ghost var inodes0 := inodes;
      assert owner.Keys - Freed(owner, ip, 0, NDIRECT + 1) == owner.Keys;
      var i := 0;
      while i < NDIRECT
        invariant 0 <= i <= NDIRECT
        invariant Marked(sb, bitmap, owner.Keys - Freed(owner, ip, i, NDIRECT + 1))
        invariant Cleared(inodes0, inodes, ip, i)
      {
        var addr := Word(inodes[ip].addrs, i);
        InInode(inodes0[ip], blocks, i);
        FreeSlot(ip, addr, i, inodes0, Freed(owner, ip, i, NDIRECT + 1), Freed(owner, ip, i + 1, NDIRECT + 1));
        if addr != 0 {
          ClearAddr(inodes0, inodes, ip, i);
          inodes := inodes[ip := SetAddr(inodes[ip], i, 0)];
        }
        i := i + 1;
      }
    }

    /** itrunc's second loop, and the indirect block itself. */
    method FreeIndirect(ip: nat, ind: nat, ghost inodes0: seq<Inode>)
      requires Owns(sb, owner, inodes0, blocks) && ip < |inodes0| && ind == Slot(inodes0[ip], blocks, NDIRECT) != 0
      requires Marked(sb, bitmap, owner.Keys - Freed(owner, ip, NDIRECT, NDIRECT + 1))
      modifies this`bitmap
      ensures Marked(sb, bitmap, owner.Keys - Freed(owner, ip, NSLOTS, NSLOTS))
    {
      hide Slot, Marked;
      assert owner[ind] == (ip, NDIRECT);
      var a := blocks[ind];
      var j := 0;
      while j < NINDIRECT
        invariant 0 <= j <= NINDIRECT
        invariant Marked(sb, bitmap, owner.Keys - Freed(owner, ip, NDIRECT, NDIRECT + 1 + j))
      {
        InIndirect(inodes0[ip], blocks, j);
        FreeSlot(ip, Word(a, j), NDIRECT + 1 + j, inodes0,
                 Freed(owner, ip, NDIRECT, NDIRECT + 1 + j), Freed(owner, ip, NDIRECT, NDIRECT + 2 + j));
        j := j + 1;
      }
      FreeSlot(ip, ind, NDIRECT, inodes0, Freed(owner, ip, NDIRECT, NSLOTS), Freed(owner, ip, NSLOTS, NSLOTS));
    }

    /** Both loops: every owned block is freed exactly once and the pointers are cleared. */
    method FreeAll(ip: nat)
      requires Consistent() && ip < |inodes| && Mapped(inodes[ip])
      modifies this`bitmap, this`inodes
      ensures Marked(sb, bitmap, owner.Keys - Freed(owner, ip, NSLOTS, NSLOTS))
      ensures inodes == old(inodes)[ip := old(inodes[ip]).(addrs := Zeros(ADDRBYTES))]
    {
      assert WellFormed(inodes[ip]);
      hide Slot, Marked, SetAddr, Word, Owns, Freed, Zeros;
      ghost var inodes0 := inodes;
      FreeDirect(ip);
      var ind := Word(inodes[ip].addrs, NDIRECT);
      InInode(inodes0[ip], blocks, NDIRECT);
      if ind != 0 {
        FreeIndirect(ip, ind, inodes0);
        ClearAddr(inodes0, inodes, ip, NDIRECT);
        inodes := inodes[ip := SetAddr(inodes[ip], NDIRECT, 0)];
      } else {
        NothingIndirect(sb, owner, inodes0, blocks, ip);
      }
      AllClear(inodes0, inodes, ip);
    }

    /** itrunc: the inode gives up all its blocks and its contents. */
    method Itrunc(ip: nat)
      requires Valid() && ip < |inodes| && Mapped(inodes[ip])
      modifies this`bitmap, this`inodes, this`dinodes, this`owner
      ensures Valid() && owner == Without(old(owner), ip)
      ensures inodes == old(inodes)[ip := old(inodes[ip]).(size := 0, addrs := Zeros(ADDRBYTES))]
    {
      hide Marked, Owns, AllSized, Freed, Without, Zeros;
      FreeAll(ip);
      inodes := inodes[ip := inodes[ip].(size := 0)];
      assert inodes == old(inodes)[ip := inodes[ip]];
      Truncated(sb, owner, old(inodes), blocks, ip, inodes[ip]);
      OwnersLeft(sb, owner, old(inodes), blocks, ip);
      owner := Without(owner, ip);
      IUpdate(ip);
    }

    /** iput: dropping the last reference to an unlinked inode gives back its blocks and frees it. */
    method Iput(ip: nat, lastRef: bool)
      requires Valid() && ip < |inodes| && inodes[ip].typ != 0
      modifies this`bitmap, this`inodes, this`dinodes, this`owner
      ensures Valid()
      ensures if lastRef && old(inodes[ip]).nlink == 0
        then inodes[ip].typ == 0 && owner == Without(old(owner), ip)
        else inodes == old(inodes) && owner == old(owner) && bitmap == old(bitmap)
      ensures OtherFiles(old(inodes), blocks, inodes, blocks, ip)
    {
      hide Slot, Marked, FileByte, Word, MappedBelow;
      if lastRef && inodes[ip].nlink == 0 {
        if inodes[ip].typ != T_SFILE {
          Itrunc(ip);
        } else {
          NothingOwned(sb, owner, inodes, blocks, ip);
        }
        FreeInode(sb, owner, inodes, blocks, ip);
        inodes := inodes[ip := inodes[ip].(typ := 0)];
        IUpdate(ip);
      }
    }

    /** ialloc: the lowest free inode, wiped and typed, or a panic.  It starts with no blocks and no
        bytes, whatever its previous life left in `addrs`. */
    method Ialloc(typ: int) returns (r: Option<nat>)
      requires Valid() && typ != 0
      modifies this`inodes, this`dinodes
      ensures Valid()
      ensures r.None? ==> inodes == old(inodes) && forall x :: 1 <= x < |inodes| ==> inodes[x].typ != 0
      ensures r.Some? ==>
        && 1 <= r.value < |inodes| && old(inodes)[r.value].typ == 0
        && (forall x :: 1 <= x < r.value ==> old(inodes)[x].typ != 0)
        && inodes == old(inodes)[r.value := Inode(typ, 0, 0, 0, 0, Zeros(ADDRBYTES))]
        && Content(inodes[r.value], blocks) == []
        && OtherFiles(old(inodes), blocks, inodes, blocks, r.value)
    {
      hide Slot, Marked, FileByte, Word, MappedBelow;
      var inum := 1;
      while inum < sb.ninodes
        invariant 1 <= inum
        invariant inodes == old(inodes) && dinodes == old(dinodes)
        invariant forall x :: 1 <= x < inum && x < |inodes| ==> inodes[x].typ != 0
      {
        if dinodes[inum].typ == 0 {
          FreshInode(sb, owner, inodes, blocks, inum, typ);
          dinodes := dinodes[inum := Inode(typ, 0, 0, 0, 0, Zeros(ADDRBYTES))];
          inodes := inodes[inum := dinodes[inum]];
          return Some(inum);
        }
        inum := inum + 1;
      }
      return None;
    }

    /** A link count change as create and unlink make it: set the field, then iupdate. */
    method SetLinks(ip: nat, nlink: int)
      requires Valid() && ip < |inodes|
      modifies this`inodes, this`dinodes
      ensures Valid() && inodes == old(inodes)[ip := old(inodes[ip]).(nlink := nlink)]
      ensures OtherFiles(old(inodes), blocks, inodes, blocks, ip)
      ensures Content(inodes[ip], blocks) == old(Content(inodes[ip], blocks))
    {
      LinksOnly(sb, owner, inodes, blocks, ip, nlink);
      inodes := inodes[ip := inodes[ip].(nlink := nlink)];
      IUpdate(ip);
    }
  }

  /** The first i pointers held in the inode are zero, the others as they were. */
  ghost predicate Cleared(inodes0: seq<Inode>, inodes: seq<Inode>, ip: nat, i: nat) {
    && OnlyAddrs(inodes0, inodes, ip) && WellFormed(inodes0[ip]) && WellFormed(inodes[ip])
    && forall y :: 0 <= y <= NDIRECT ==> Word(inodes[ip].addrs, y) == if y < i then 0 else Word(inodes0[ip].addrs, y)
  }

  lemma ClearAddr(inodes0: seq<Inode>, inodes: seq<Inode>, ip: nat, i: nat)
    requires Cleared(inodes0, inodes, ip, i) && i <= NDIRECT
    ensures Cleared(inodes0, inodes[ip := SetAddr(inodes[ip], i, 0)], ip, i + 1)
  {
    hide Word, SetWord;
  }

  lemma InIndirect(d: Inode, blocks: seq<Block>, n: nat)
    requires WellFormed(d) && 0 < Slot(d, blocks, NDIRECT) < |blocks| && n < NINDIRECT
    ensures Slot(d, blocks, NDIRECT + 1 + n) == Word(blocks[Slot(d, blocks, NDIRECT)], n)
  {
  }

  /** Thirteen zero words are fifty-two zero bytes. */
  lemma AllClear(inodes0: seq<Inode>, inodes: seq<Inode>, ip: nat)
    requires Cleared(inodes0, inodes, ip, NDIRECT + 1)
    ensures inodes[ip] == inodes0[ip].(addrs := Zeros(ADDRBYTES))
  {
    var a := inodes[ip].addrs;
    forall k | 0 <= k < ADDRBYTES ensures a[k] == 0 {
      assert Word(a, k / 4) == 0;
    }
    assert a == Zeros(ADDRBYTES);
  }

  lemma NothingIndirect(sb: Superblock, owner: Owners, inodes: seq<Inode>, blocks: seq<Block>, ip: nat)
    requires Owns(sb, owner, inodes, blocks) && ip < |inodes|
    requires Mapped(inodes[ip]) && Word(inodes[ip].addrs, NDIRECT) == 0
    ensures Freed(owner, ip, NDIRECT, NDIRECT + 1) == Freed(owner, ip, NSLOTS, NSLOTS)
  {
    forall b | b in owner && owner[b].0 == ip ensures owner[b].1 < NDIRECT {
      assert Slot(inodes[owner[b].0], blocks, owner[b].1) == b;
    }
  }

  lemma OwnersLeft(sb: Superblock, owner: Owners, inodes: seq<Inode>, blocks: seq<Block>, ip: nat)
    requires Owns(sb, owner, inodes, blocks)
    ensures Without(owner, ip).Keys == owner.Keys - Freed(owner, ip, NSLOTS, NSLOTS)
  {
  }

  lemma NothingOwned(sb: Superblock, owner: Owners, inodes: seq<Inode>, blocks: seq<Block>, ip: nat)
    requires Owns(sb, owner, inodes, blocks) && ip < |inodes| && !Mapped(inodes[ip])
    ensures Without(owner, ip) == owner
  {
    forall b | b in owner ensures owner[b].0 != ip {
      assert Slot(inodes[owner[b].0], blocks, owner[b].1) == b;
    }
  }

  lemma ZeroSlots(d: Inode, blocks: seq<Block>)
    requires WellFormed(d) && (Mapped(d) ==> d.addrs == Zeros(ADDRBYTES))
    ensures forall y :: 0 <= y < NSLOTS ==> Slot(d, blocks, y) == 0
  {
    if Mapped(d) {
      forall y: nat | y <= NDIRECT ensures Word(d.addrs, y) == 0 { ZeroWords(ADDRBYTES, y); }
    }
  }

  lemma Truncated(sb: Superblock, owner: Owners, inodes: seq<Inode>, blocks: seq<Block>, ip: nat, d: Inode)
    requires Owns(sb, owner, inodes, blocks) && AllSized(inodes, blocks) && ip < |inodes|
    requires d.addrs == Zeros(ADDRBYTES) && d.size == 0
    ensures Owns(sb, Without(owner, ip), inodes[ip := d], blocks) && AllSized(inodes[ip := d], blocks)
    ensures OtherFiles(inodes, blocks, inodes[ip := d], blocks, ip)
  {
    hide Slot;
    ZeroSlots(d, blocks);
    DropInode(sb, owner, inodes, blocks, ip, d);
  }

  lemma FreeInode(sb: Superblock, owner: Owners, inodes: seq<Inode>, blocks: seq<Block>, ip: nat)
    requires Owns(sb, owner, inodes, blocks) && AllSized(inodes, blocks) && ip < |inodes|
    requires Mapped(inodes[ip]) ==> inodes[ip].addrs == Zeros(ADDRBYTES)
    ensures var d := inodes[ip].(typ := 0);
      Owns(sb, owner, inodes[ip := d], blocks) && AllSized(inodes[ip := d], blocks)
  {
    hide Slot;
    var d := inodes[ip].(typ := 0);
    ZeroSlots(d, blocks);
    ZeroSlots(inodes[ip], blocks);
    ReplaceInode(sb, owner, inodes, blocks, ip, d);
  }

  lemma FreshInode(sb: Superblock, owner: Owners, inodes: seq<Inode>, blocks: seq<Block>, ip: nat, typ: int)
    requires Owns(sb, owner, inodes, blocks) && AllSized(inodes, blocks) && ip < |inodes| && inodes[ip].typ == 0
    ensures var d := Inode(typ, 0, 0, 0, 0, Zeros(ADDRBYTES));
      Owns(sb, owner, inodes[ip := d], blocks) && AllSized(inodes[ip := d], blocks)
  {
    hide Slot;
    var d := Inode(typ, 0, 0, 0, 0, Zeros(ADDRBYTES));
    ZeroSlots(d, blocks);
    ZeroSlots(inodes[ip], blocks);
    ReplaceInode(sb, owner, inodes, blocks, ip, d);
  }

  lemma LinksOnly(sb: Superblock, owner: Owners, inodes: seq<Inode>, blocks: seq<Block>, ip: nat, nlink: int)
    requires Owns(sb, owner, inodes, blocks) && AllSized(inodes, blocks) && ip < |inodes|
    ensures var d := inodes[ip].(nlink := nlink);
      && Owns(sb, owner, inodes[ip := d], blocks) && AllSized(inodes[ip := d], blocks)
      && Content(d, blocks) == Content(inodes[ip], blocks)
  {
    var d := inodes[ip].(nlink := nlink);
    assert forall y :: 0 <= y < NSLOTS ==> Slot(d, blocks, y) == Slot(inodes[ip], blocks, y);
    hide Slot;
    ReplaceInode(sb, owner, inodes, blocks, ip, d);
  }

  /** A block-mapped write that has got as far as `data`. */
  ghost predicate Partial(sb: Superblock, bitmap: seq<BitBlock>, owner: Owners, inodes0: seq<Inode>,
                          blocks0: seq<Block>,
                          inodes: seq<Inode>, blocks: seq<Block>, ip: nat, off: nat, data: seq<byte>)
  {
    && Owns(sb, owner, inodes, blocks) && Marked(sb, bitmap, owner.Keys)
    && Wrote(inodes0, blocks0, inodes, blocks, ip, off, data)
    && (forall x :: 0 <= x < |inodes0| ==> WellFormed(inodes0[x]))
    && Mapped(inodes0[ip]) && Sized(inodes0[ip], blocks0)
    && MappedBelow(inodes[ip], blocks, off + |data|)
    && (off + |data| <= inodes0[ip].size ==> inodes == inodes0)
  }

  lemma StartWrite(sb: Superblock, bitmap: seq<BitBlock>, owner: Owners, inodes: seq<Inode>, blocks: seq<Block>,
                   ip: nat, off: nat)
    requires Owns(sb, owner, inodes, blocks) && Marked(sb, bitmap, owner.Keys)
    requires ip < |inodes| && Sized(inodes[ip], blocks) && Mapped(inodes[ip]) && off <= inodes[ip].size
    ensures Partial(sb, bitmap, owner, inodes, blocks, inodes, blocks, ip, off, [])
  {
    hide Slot, FileByte, Marked;
    WroteNothing(inodes, blocks, ip, off);
    LessMapped(inodes[ip], blocks, inodes[ip].size, off);
  }

  lemma EndWrite(sb: Superblock, bitmap: seq<BitBlock>, owner: Owners, inodes0: seq<Inode>, blocks0: seq<Block>,
                 inodes: seq<Inode>, blocks: seq<Block>, ip: nat, off: nat, data: seq<byte>)
    requires Partial(sb, bitmap, owner, inodes0, blocks0, inodes, blocks, ip, off, data)
    ensures Owns(sb, owner, inodes, blocks) && Marked(sb, bitmap, owner.Keys)
    ensures Wrote(inodes0, blocks0, inodes, blocks, ip, off, data)
    ensures WellFormed(inodes[ip]) && MappedBelow(inodes[ip], blocks, off + |data|)
    ensures off + |data| <= inodes0[ip].size ==> inodes == inodes0
  {
  }

  lemma LessMapped(d: Inode, blocks: seq<Block>, n: nat, m: nat)
    requires WellFormed(d) && MappedBelow(d, blocks, n) && m <= n
    ensures MappedBelow(d, blocks, m)
  {
  }

  lemma Paste(s: seq<byte>, n: nat, m: nat)
    requires n + m <= |s|
    ensures s[..n] + s[n..n + m] == s[..n + m]
  {
  }

  lemma Cut(s: seq<byte>, n: nat, a: nat, b: nat)
    requires a <= b <= n <= |s|
    ensures s[..n][a..b] == s[a..b]
  {
  }

  /** Chunk by chunk, every block below the write position gets mapped and stays mapped. */
  lemma BlocksBelow(d1: Inode, blocks1: seq<Block>, d2: Inode, blocks2: seq<Block>, d3: Inode, blocks3: seq<Block>,
                    o: nat, m: nat)
    requires WellFormed(d1) && WellFormed(d2) && WellFormed(d3) && o + m <= MAXFILE * BSIZE
    requires 0 < m <= BSIZE - o % BSIZE
    requires MappedBelow(d1, blocks1, o)
    requires forall y :: 0 <= y < NSLOTS && Slot(d1, blocks1, y) != 0 ==> Slot(d2, blocks2, y) != 0
    requires Slot(d2, blocks2, DataSlot(o / BSIZE)) != 0
    requires forall y :: 0 <= y < NSLOTS && Slot(d2, blocks2, y) != 0 ==> Slot(d3, blocks3, y) != 0
    ensures MappedBelow(d3, blocks3, o + m)
  {
    hide Slot;
    forall bn: nat | bn * BSIZE < o + m ensures Slot(d3, blocks3, DataSlot(bn)) != 0 {
      if bn != o / BSIZE { assert bn * BSIZE < o; }
      assert Slot(d2, blocks2, DataSlot(bn)) != 0;
    }
  }

  lemma InInode(d: Inode, blocks: seq<Block>, j: nat)
    requires WellFormed(d) && Mapped(d) && j <= NDIRECT
    ensures Slot(d, blocks, j) == Word(d.addrs, j)
  {
  }

  lemma NoEntries(d: Inode, blocks: seq<Block>, j: nat)
    requires WellFormed(d) && Mapped(d) && Word(d.addrs, NDIRECT) == 0 && NDIRECT < j < NSLOTS
    ensures Slot(d, blocks, j) == 0
  {
  }
}
