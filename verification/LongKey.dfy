/** Page keys: 4 bits of client id, 32 of inode number, 28 of page index. */
module LongKey {
  import opened Types

  /** The fields shifted and or-ed together, as 64-bit words. */
  function MakeLongkey(cid: bv64, inode: bv64, index: bv32): bv64 {
    (inode << 28) | (index as bv64) | (cid << 60)
  }

  function LongkeyToCid(key: bv64): bv64 {
    key >> 60
  }

  function LongkeyToInode(key: bv64): bv64 {
    (key >> 28) & 0xffff_ffff
  }

  /** Keeps 29 bits, one more than the index has. */
  function LongkeyToOffset(key: bv64): bv64 {
    key & 0x1fff_ffff
  }

  predicate Fields(cid: bv64, inode: bv64, index: bv32) {
    cid < 16 && inode <= 0xffff_ffff && index < 0x1000_0000
  }

  /** The client and the inode are read back from any key made of fields in range. */
  lemma RoundTrip(cid: bv64, inode: bv64, index: bv32)
    requires Fields(cid, inode, index)
    ensures LongkeyToCid(MakeLongkey(cid, inode, index)) == cid
    ensures LongkeyToInode(MakeLongkey(cid, inode, index)) == inode
  {
  }

  /** The index is read back exactly for even inodes: the 29th bit is the inode's lowest. */
  lemma OffsetRoundTrip(cid: bv64, inode: bv64, index: bv32)
    requires Fields(cid, inode, index)
    ensures LongkeyToOffset(MakeLongkey(cid, inode, index)) == index as bv64 <==> inode & 1 == 0
  {
  }

  /** Distinct fields give distinct keys. */
  lemma Injective(cid: bv64, inode: bv64, index: bv32, cid': bv64, inode': bv64, index': bv32)
    requires Fields(cid, inode, index) && Fields(cid', inode', index')
    requires MakeLongkey(cid, inode, index) == MakeLongkey(cid', inode', index')
    ensures cid == cid' && inode == inode' && index == index'
  {
    RoundTrip(cid, inode, index);
    RoundTrip(cid', inode', index');
  }

  /** Every key of a client below 15 can be stored; client 15 has exactly two keys that collide with the
      table's reserved ones. */
  lemma Reserved(cid: bv64, inode: bv64, index: bv32)
    requires Fields(cid, inode, index)
    ensures MakeLongkey(cid, inode, index) == 0xffff_ffff_ffff_ffff <==>
      cid == 15 && inode == 0xffff_ffff && index == 0xfff_ffff
    ensures MakeLongkey(cid, inode, index) == 0xffff_ffff_ffff_fffc <==>
      cid == 15 && inode == 0xffff_ffff && index == 0xfff_fffc
  {
  }

  /** The client id of a key as a number: its top four bits. */
  function Cid(key: Key): (c: nat)
    ensures c < 16
  {
    key / 0x1000_0000_0000_0000
  }

  /** The same key written as a number carries the client it was made for, and no two clients share one. */
  lemma NumericCid(cid: nat, inode: nat, index: nat)
    requires cid < 16 && inode < 0x1_0000_0000 && index < 0x1000_0000
    ensures Cid(cid * 0x1000_0000_0000_0000 + inode * 0x1000_0000 + index) == cid
  {
  }
}
