/** Byte-level reasoning behind readi and writei: one block at a time on disk is one splice of the
    file's byte sequence. */
module FileContent {
  import opened Words
  import opened FsSpec

  /** Slots that were set are set as before. */
  ghost predicate KeepsSlots(inodes: seq<Inode>, blocks: seq<Block>, inodes': seq<Inode>, blocks': seq<Block>) {
    && |inodes| == |inodes'|
    && forall x, y :: 0 <= x < |inodes| && 0 <= y < NSLOTS && WellFormed(inodes[x]) && WellFormed(inodes'[x]) ==>
         Slot(inodes[x], blocks, y) != 0 ==> Slot(inodes'[x], blocks', y) == Slot(inodes[x], blocks, y)
  }

  /** Only the block pointers of inode ip may differ. */
  ghost predicate OnlyAddrs(inodes: seq<Inode>, inodes': seq<Inode>, ip: nat) {
    && |inodes| == |inodes'| && ip < |inodes|
    && inodes' == inodes[ip := inodes[ip].(addrs := inodes'[ip].addrs)]
  }

  /** Inode ip may have gained pointers to zeroed blocks; nothing else about any file has changed. */
  ghost predicate Grown(inodes: seq<Inode>, blocks: seq<Block>, inodes': seq<Inode>, blocks': seq<Block>, ip: nat) {
    && |blocks| == |blocks'| && OnlyAddrs(inodes, inodes', ip)
    && SameBytes(inodes, blocks, inodes', blocks') && KeepsSlots(inodes, blocks, inodes', blocks')
  }

  lemma GrownNot(inodes: seq<Inode>, blocks: seq<Block>, ip: nat)
    requires ip < |inodes|
    ensures Grown(inodes, blocks, inodes, blocks, ip)
  {
  }

  lemma GrownTwice(inodes: seq<Inode>, blocks: seq<Block>, inodes': seq<Inode>, blocks': seq<Block>,
                   inodes'': seq<Inode>, blocks'': seq<Block>, ip: nat)
    requires Grown(inodes, blocks, inodes', blocks', ip) && Grown(inodes', blocks', inodes'', blocks'', ip)
    requires forall x :: 0 <= x < |inodes'| ==> WellFormed(inodes[x]) && WellFormed(inodes'[x])
    ensures Grown(inodes, blocks, inodes'', blocks'', ip)
  {
    hide Slot, FileByte;
  }

  // ---------------------------------------------------------------- reading

  /** The part of one disk block that readi copies is the matching part of the contents. */
  lemma ReadChunk(sb: Superblock, owner: Owners, inodes: seq<Inode>, blocks: seq<Block>, ip: nat, o: nat, m: nat)
    requires Owns(sb, owner, inodes, blocks) && ip < |inodes| && Sized(inodes[ip], blocks) && Mapped(inodes[ip])
    requires o + m <= inodes[ip].size && 0 < m <= BSIZE - o % BSIZE
    ensures o / BSIZE < MAXFILE && 0 < Slot(inodes[ip], blocks, DataSlot(o / BSIZE)) < |blocks|
    ensures blocks[Slot(inodes[ip], blocks, DataSlot(o / BSIZE))][o % BSIZE..o % BSIZE + m]
      == Content(inodes[ip], blocks)[o..o + m]
  {
    hide Slot;
    var d, bn := inodes[ip], o / BSIZE;
    var b := Slot(d, blocks, DataSlot(bn));
    assert bn * BSIZE < d.size && b != 0;
    assert owner[b] == (ip, DataSlot(bn));
    var part := Content(d, blocks)[o..o + m];
    forall t | 0 <= t < m ensures blocks[b][o % BSIZE + t] == part[t] {
      assert (o + t) / BSIZE == bn && (o + t) % BSIZE == o % BSIZE + t;
      assert part[t] == FileByte(d, blocks, o + t);
    }
  }

  // ---------------------------------------------------------------- writing

  /** After writing `data` at off into inode ip: exactly those bytes have changed, in no other file. */
  ghost predicate Wrote(inodes: seq<Inode>, blocks: seq<Block>, inodes': seq<Inode>, blocks': seq<Block>,
                        ip: nat, off: nat, data: seq<byte>)
  {
    && |blocks| == |blocks'| && OnlyAddrs(inodes, inodes', ip) && KeepsSlots(inodes, blocks, inodes', blocks')
    && forall x, k: nat :: 0 <= x < |inodes| && WellFormed(inodes[x]) && WellFormed(inodes'[x]) ==>
         FileByte(inodes'[x], blocks', k) ==
           if x == ip && off <= k < off + |data| then data[k - off] else FileByte(inodes[x], blocks, k)
  }

  lemma WroteNothing(inodes: seq<Inode>, blocks: seq<Block>, ip: nat, off: nat)
    requires ip < |inodes|
    ensures Wrote(inodes, blocks, inodes, blocks, ip, off, [])
  {
  }

  lemma WroteGrown(inodes: seq<Inode>, blocks: seq<Block>, inodes': seq<Inode>, blocks': seq<Block>,
                   inodes'': seq<Inode>, blocks'': seq<Block>, ip: nat, off: nat, data: seq<byte>)
    requires Wrote(inodes, blocks, inodes', blocks', ip, off, data) && Grown(inodes', blocks', inodes'', blocks'', ip)
    requires forall x :: 0 <= x < |inodes'| ==> WellFormed(inodes[x]) && WellFormed(inodes'[x])
    ensures Wrote(inodes, blocks, inodes'', blocks'', ip, off, data)
  {
    hide Slot, FileByte;
  }

  /** A block with part of it replaced. */
  function Overlay(blk: Block, a: nat, chunk: seq<byte>): (r: Block)
    requires a + |chunk| <= BSIZE
  {
    blk[..a] + chunk + blk[a + |chunk|..]
  }

  /** One turn of writei's loop: the next chunk goes into its disk block. */
  lemma WroteMore(sb: Superblock, owner: Owners, inodes0: seq<Inode>, blocks0: seq<Block>,
                  inodes: seq<Inode>, blocks: seq<Block>, ip: nat, off: nat, data: seq<byte>, chunk: seq<byte>,
                  o: nat, b: nat)
    requires Owns(sb, owner, inodes, blocks) && Wrote(inodes0, blocks0, inodes, blocks, ip, off, data)
    requires forall x :: 0 <= x < |inodes0| ==> WellFormed(inodes0[x])
    requires o == off + |data| && 0 < |chunk| <= BSIZE - o % BSIZE && o / BSIZE < MAXFILE
    requires b == Slot(inodes[ip], blocks, DataSlot(o / BSIZE)) && 0 < b < |blocks|
    ensures Owns(sb, owner, inodes, blocks[b := Overlay(blocks[b], o % BSIZE, chunk)])
    ensures KeepsSlots(inodes, blocks, inodes, blocks[b := Overlay(blocks[b], o % BSIZE, chunk)])
    ensures Wrote(inodes0, blocks0, inodes, blocks[b := Overlay(blocks[b], o % BSIZE, chunk)], ip, off, data + chunk)
  {
    hide Slot, FileByte, Overlay;
    var bn := o / BSIZE;
    var blk := Overlay(blocks[b], o % BSIZE, chunk);
    RewriteKeepsSlots(sb, owner, inodes, blocks, ip, bn, blk);
    var blocks' := blocks[b := blk];
    forall x, k: nat | 0 <= x < |inodes|
      ensures FileByte(inodes[x], blocks', k) ==
        if x == ip && off <= k < off + |data + chunk| then (data + chunk)[k - off] else FileByte(inodes0[x], blocks0, k)
    {
      WroteMoreAt(sb, owner, inodes, blocks, ip, o, chunk, x, k);
    }
  }

  lemma WroteMoreAt(sb: Superblock, owner: Owners, inodes: seq<Inode>, blocks: seq<Block>, ip: nat, o: nat,
                    chunk: seq<byte>, x: nat, k: nat)
    requires Owns(sb, owner, inodes, blocks) && ip < |inodes| && x < |inodes|
    requires 0 < |chunk| <= BSIZE - o % BSIZE && o / BSIZE < MAXFILE
    requires Slot(inodes[ip], blocks, DataSlot(o / BSIZE)) != 0
    ensures Slot(inodes[ip], blocks, DataSlot(o / BSIZE)) < |blocks|
    ensures var b := Slot(inodes[ip], blocks, DataSlot(o / BSIZE));
      FileByte(inodes[x], blocks[b := Overlay(blocks[b], o % BSIZE, chunk)], k) ==
        if x == ip && o <= k < o + |chunk| then chunk[k - o] else FileByte(inodes[x], blocks, k)
  {
    hide Slot;
    var bn := o / BSIZE;
    var b := Slot(inodes[ip], blocks, DataSlot(bn));
    assert owner[b] == (ip, DataSlot(bn));
    var blk := Overlay(blocks[b], o % BSIZE, chunk);
    RewriteByte(sb, owner, inodes, blocks, ip, bn, blk, x, k);
    if x == ip && k / BSIZE == bn {
      assert o <= k < o + |chunk| <==> o % BSIZE <= k % BSIZE < o % BSIZE + |chunk|;
    }
  }

  /** The finished write is a splice of the contents. */
  lemma WroteSplice(inodes0: seq<Inode>, blocks0: seq<Block>, inodes: seq<Inode>, blocks: seq<Block>,
                    ip: nat, off: nat, data: seq<byte>, size: nat)
    requires Wrote(inodes0, blocks0, inodes, blocks, ip, off, data)
    requires WellFormed(inodes0[ip]) && WellFormed(inodes[ip]) && Mapped(inodes0[ip])
    requires off <= inodes0[ip].size
    requires size == if off + |data| > inodes0[ip].size then off + |data| else inodes0[ip].size
    ensures Content(inodes[ip].(size := size), blocks) == Splice(Content(inodes0[ip], blocks0), off, data)
  {
    hide FileByte;
    var d, s := inodes[ip].(size := size), Splice(Content(inodes0[ip], blocks0), off, data);
    forall k | 0 <= k < size ensures Content(d, blocks)[k] == s[k] {
      SizeFree(inodes[ip], blocks, size, k);
    }
  }

  /** The bytes do not depend on the size field. */
  lemma SizeFree(d: Inode, blocks: seq<Block>, size: nat, k: nat)
    requires WellFormed(d)
    ensures FileByte(d.(size := size), blocks, k) == FileByte(d, blocks, k)
  {
  }

  /** Files other than the one written keep their contents and stay backed by blocks. */
  lemma OthersKept(inodes0: seq<Inode>, blocks0: seq<Block>, inodes: seq<Inode>, blocks: seq<Block>,
                   ip: nat, off: nat, data: seq<byte>, x: nat)
    requires Wrote(inodes0, blocks0, inodes, blocks, ip, off, data)
    requires x < |inodes0| && x != ip && Sized(inodes0[x], blocks0)
    ensures inodes[x] == inodes0[x] && Sized(inodes[x], blocks)
    ensures Content(inodes[x], blocks) == Content(inodes0[x], blocks0)
  {
    hide FileByte, Slot;
    forall k | 0 <= k < inodes[x].size && inodes[x].typ != T_SFILE
      ensures Content(inodes[x], blocks)[k] == Content(inodes0[x], blocks0)[k]
    {
      assert FileByte(inodes[x], blocks, k) == FileByte(inodes0[x], blocks0, k);
    }
  }

  /** The state after a block-mapped write, once the size field is set. */
  lemma BlockWriteDone(sb: Superblock, owner: Owners, inodes0: seq<Inode>, blocks0: seq<Block>,
                       inodes: seq<Inode>, blocks: seq<Block>, ip: nat, off: nat, data: seq<byte>, size: nat)
    requires AllSized(inodes0, blocks0) && Owns(sb, owner, inodes, blocks)
    requires Wrote(inodes0, blocks0, inodes, blocks, ip, off, data) && Mapped(inodes0[ip]) && off <= inodes0[ip].size
    requires MappedBelow(inodes[ip], blocks, off + |data|)
    requires size == if off + |data| > inodes0[ip].size then off + |data| else inodes0[ip].size
    ensures var inodes' := inodes[ip := inodes[ip].(size := size)];
      && Owns(sb, owner, inodes', blocks) && AllSized(inodes', blocks)
      && OtherFiles(inodes0, blocks0, inodes', blocks, ip)
      && Content(inodes'[ip], blocks) == Splice(Content(inodes0[ip], blocks0), off, data)
  {
    hide FileByte, Content, Splice;
    var d := inodes[ip].(size := size);
    var inodes' := inodes[ip := d];
    assert forall y :: 0 <= y < NSLOTS ==> Slot(d, blocks, y) == Slot(inodes[ip], blocks, y);
    hide Slot;
    ReplaceInode(sb, owner, inodes, blocks, ip, d);
    WroteSplice(inodes0, blocks0, inodes, blocks, ip, off, data, size);
    assert MappedBelow(d, blocks, size) by {
      forall bn: nat | bn * BSIZE < size ensures Slot(d, blocks, DataSlot(bn)) != 0 {
        assert bn * BSIZE < inodes0[ip].size || bn * BSIZE < off + |data|;
      }
    }
    forall x | 0 <= x < |inodes| && x != ip
      ensures inodes'[x] == inodes0[x] && Sized(inodes'[x], blocks)
      ensures Content(inodes'[x], blocks) == Content(inodes0[x], blocks0)
    {
      OthersKept(inodes0, blocks0, inodes, blocks, ip, off, data, x);
    }
  }

  /** The state after a write into the inode itself. */
  lemma SmallWriteDone(sb: Superblock, owner: Owners, inodes: seq<Inode>, blocks: seq<Block>, ip: nat,
                       off: nat, data: seq<byte>, size: nat)
    requires AllSized(inodes, blocks) && Owns(sb, owner, inodes, blocks) && ip < |inodes|
    requires inodes[ip].typ == T_SFILE && off <= inodes[ip].size && off + |data| <= ADDRBYTES
    requires size == if off + |data| > inodes[ip].size then off + |data| else inodes[ip].size
    ensures var d := inodes[ip].(addrs := Splice(inodes[ip].addrs, off, data), size := size);
      && WellFormed(d) && Owns(sb, owner, inodes[ip := d], blocks) && AllSized(inodes[ip := d], blocks)
      && OtherFiles(inodes, blocks, inodes[ip := d], blocks, ip)
      && Content(d, blocks) == Splice(Content(inodes[ip], blocks), off, data)
  {
    hide FileByte, MappedBelow, Splice;
    var d := inodes[ip].(addrs := Splice(inodes[ip].addrs, off, data), size := size);
    assert forall y :: 0 <= y < NSLOTS ==> Slot(d, blocks, y) == Slot(inodes[ip], blocks, y);
    hide Slot, Owns;
    ReplaceInode(sb, owner, inodes, blocks, ip, d);
    SplicePrefix(inodes[ip].addrs, inodes[ip].size, off, data, size);
  }

  lemma SplicePrefix(s: seq<byte>, n: nat, off: nat, data: seq<byte>, m: nat)
    requires off <= n <= |s| && off + |data| <= |s| && m == if off + |data| > n then off + |data| else n
    ensures Splice(s, off, data)[..m] == Splice(s[..n], off, data)
  {
  }
}
