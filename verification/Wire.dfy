/** What both sides of a connection must agree on: the fields of a message's 32 immediate bits, and where
    each request's metadata lies in the server's memory. */
module Wire {
  import opened Arith

  datatype Fields = Fields(mid: bv32, msg: bv32, tx: bv32, etc: bv32, crc: bv32) {
    predicate InRange() {
      mid <= 0xfff && msg <= 0xf && tx <= 0xf && etc <= 0xf && crc <= 0xff
    }
  }

  function BitMask(f: Fields): bv32 {
    (f.mid << 20) | (f.msg << 16) | (f.tx << 12) | (f.etc << 8) | f.crc
  }

  function BitUnmask(target: bv32): Fields {
    Fields((target >> 20) & 0xfff, (target >> 16) & 0xf, (target >> 12) & 0xf, (target >> 8) & 0xf, target & 0xff)
  }

  /** The receiver reads back what the sender packed exactly when every field fits its bits. */
  lemma PackedFields(f: Fields)
    ensures BitUnmask(BitMask(f)) == f <==> f.InRange()
  {
    UnmaskInRange(BitMask(f));
    if f.InRange() { Shifts(f.mid, f.msg, f.tx, f.etc, f.crc); }
  }

  lemma Shifts(mid: bv32, msg: bv32, tx: bv32, etc: bv32, crc: bv32)
    requires mid <= 0xfff && msg <= 0xf && tx <= 0xf && etc <= 0xf && crc <= 0xff
    ensures var t := (mid << 20) | (msg << 16) | (tx << 12) | (etc << 8) | crc;
      && (t >> 20) & 0xfff == mid && (t >> 16) & 0xf == msg && (t >> 12) & 0xf == tx && (t >> 8) & 0xf == etc
            && t & 0xff == crc
  {
  }

  lemma UnmaskInRange(target: bv32)
    ensures BitUnmask(target).InRange()
  {
  }

  /** The fields use all 32 bits: packing what was unpacked gives the word back. */
  lemma EveryWord(target: bv32)
    ensures BitMask(BitUnmask(target)) == target
  {
  }

  // ---- Metadata ----

  datatype Kind = Read | InvPage | Other

  const WORD_BYTES: nat := 8
  const GET_METADATA_SIZE: nat := 16

  /** For n message numbers: a key and an address for reads, and a key per number for invalidations. */
  function MetadataSize(n: nat): nat {
    GET_METADATA_SIZE + WORD_BYTES * n
  }

  /** Where the client writes, from the base of the server's region; -1 for any other kind. */
  function GetMetadataOffset(n: nat, queueId: nat, msgId: nat, kind: Kind): int {
    match kind
    case Read => MetadataSize(n) * queueId
    case InvPage => MetadataSize(n) * queueId + GET_METADATA_SIZE + msgId * WORD_BYTES
    case Other => -1
  }

  /** Where the server reads the key. */
  function KeyMetaRegion(n: nat, addr: nat, qid: nat, mid: nat, kind: Kind): int {
    match kind
    case Read => addr + MetadataSize(n) * qid
    case InvPage => addr + MetadataSize(n) * qid + GET_METADATA_SIZE + mid * WORD_BYTES
    case Other => -1
  }

  /** Where the server reads the client's address for the page. */
  function AddrMetaRegion(n: nat, addr: nat, qid: nat, mid: nat): int {
    KeyMetaRegion(n, addr, qid, mid, Read) + WORD_BYTES
  }

  /** The bytes a request writes: the key and the address, or the key. */
  function Extent(kind: Kind): nat {
    match kind
    case Read => 2 * WORD_BYTES
    case InvPage => WORD_BYTES
    case Other => 0
  }

  /** Two requests share a slot only if they are reads of one queue, or one queue's invalidations with one number. */
  predicate SameSlot(q: nat, id: nat, kind: Kind, q': nat, id': nat, kind': Kind) {
    q == q' && kind == kind' && (kind.InvPage? ==> id == id')
  }

  /** The server reads the key, and the address 8 bytes after it, where the client wrote them, inside the
      region registered for all queues. */
  lemma OffsetsAgree(n: nat, queues: nat, addr: nat, q: nat, id: nat, kind: Kind)
    requires q < queues && id < n && !kind.Other?
    ensures addr + GetMetadataOffset(n, q, id, kind) == KeyMetaRegion(n, addr, q, id, kind)
    ensures AddrMetaRegion(n, addr, q, id) == addr + GetMetadataOffset(n, q, id, Read) + WORD_BYTES
    ensures 0 <= GetMetadataOffset(n, q, id, kind)
    ensures GetMetadataOffset(n, q, id, kind) + Extent(kind) <= queues * MetadataSize(n)
  {
    MulMonotone(q + 1, queues, MetadataSize(n));
    MulNext(q, MetadataSize(n));
    MulMonotone(id + 1, n, WORD_BYTES);
  }

  /** Requests of different queues, kinds or numbers write disjoint bytes. */
  lemma SlotsDisjoint(n: nat, q: nat, id: nat, kind: Kind, q': nat, id': nat, kind': Kind)
    requires id < n && id' < n && !kind.Other? && !kind'.Other? && !SameSlot(q, id, kind, q', id', kind')
    ensures var o, o' := GetMetadataOffset(n, q, id, kind), GetMetadataOffset(n, q', id', kind');
      o + Extent(kind) <= o' || o' + Extent(kind') <= o
  {
    MulMonotone(q + 1, q', MetadataSize(n));
    MulMonotone(q' + 1, q, MetadataSize(n));
    MulNext(q, MetadataSize(n));
    MulNext(q', MetadataSize(n));
  }
}
