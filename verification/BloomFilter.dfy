/** The client's Bloom filter: two packed bitmaps and the merging switch between them. */
module BloomFilter {
  import opened Types
  import opened Bits
  import opened CountingFilter

  // ---- What the filter means: sets of positions ----

  ghost function KeyBits(sh: Shape, k: Key): (bits: set<nat>)
    requires sh.Ok()
  {
    set i | 0 <= i < sh.numHash :: sh.Index(k, i)
  }

  ghost function Ones(words: seq<Word>): set<nat> {
    set idx: nat | idx < |words| * 64 && Bit(words, idx)
  }

  /** A packed filter reports exactly the keys all of whose positions are set. */
  lemma PackedBits(sh: Shape, words: seq<Word>, k: Key)
    requires sh.Ok() && |words| == Longs(sh.numBits)
    ensures InPacked(sh, words, k) <==> KeyBits(sh, k) <= Ones(words)
  {
    forall i | 0 <= i < sh.numHash ensures sh.Index(k, i) in KeyBits(sh, k) {}
  }

  /** The positions set in the bitmap and in the temporary bitmap, and whether a merge is under way. */
  datatype Filter = Filter(bitmap: set<nat>, tmp: set<nat>, merging: bool) {
    ghost function Add(bits: set<nat>): Filter {
      if merging then this.(tmp := tmp + bits) else this.(bitmap := bitmap + bits)
    }

    ghost predicate Reports(bits: set<nat>) {
      (merging && bits <= tmp) || bits <= bitmap
    }

    ghost function Block(): Filter {
      this.(tmp := {}, merging := true)
    }

    ghost function Clear(): Filter {
      this.(merging := false)
    }

    ghost function Merge(): Filter {
      this.(bitmap := bitmap + tmp)
    }
  }

  // ---- The filter ----

  function CalcBitidx(keyHash: nat): (nat, Word) {
    (keyHash / 64, Mask(keyHash % 64))
  }

  class BloomFilter {
    const sh: Shape
    const bitmap: array<Word>
    const tmpBitmap: array<Word>
    var merging: bool

    ghost predicate Valid()
      reads this
    {
      sh.Ok() && sh.numHash < 256 && bitmap.Length == tmpBitmap.Length == Longs(sh.numBits) && bitmap != tmpBitmap
    }

    ghost function View(): Filter
      reads this, bitmap, tmpBitmap
    {
      Filter(Ones(bitmap[..]), Ones(tmpBitmap[..]), merging)
    }

    constructor (sh: Shape)
      requires sh.Ok() && sh.numHash < 256
      ensures Valid() && View() == Filter({}, {}, false) && this.sh == sh && fresh(bitmap) && fresh(tmpBitmap)
    {
      this.sh := sh;
      this.bitmap := new Word[Longs(sh.numBits)](_ => ZERO);
      this.tmpBitmap := new Word[Longs(sh.numBits)](_ => ZERO);
      this.merging := false;
    }

    /** Both branches of bf_add: or the key's bits into one bitmap. */
    method OrKey(words: array<Word>, k: Key)
      requires Valid() && words.Length == Longs(sh.numBits)
      modifies words
      ensures Ones(words[..]) == old(Ones(words[..])) + KeyBits(sh, k)
    {
      ghost var before := words[..];
      for i := 0 to sh.numHash
        invariant Ones(words[..]) == Ones(before) + set j | 0 <= j < i :: sh.Index(k, j)
      {
        var keyHash := sh.Index(k, i);
        var (longIdx, checkBit) := CalcBitidx(keyHash);
        ghost var was := words[..];
        words[longIdx] := Or(words[longIdx], checkBit);
        SetBit(was, words[..], keyHash);
        assert Ones(words[..]) == Ones(was) + {keyHash};
      }
    }

    method Add(k: Key)
      requires Valid()
      modifies bitmap, tmpBitmap
      ensures Valid() && View() == old(View()).Add(KeyBits(sh, k))
    {
      if merging {
        OrKey(tmpBitmap, k);
      } else {
        OrKey(bitmap, k);
      }
    }

    /** Every position of the key is set. */
    method Lookup(words: array<Word>, k: Key) returns (found: bool)
      requires Valid() && words.Length == Longs(sh.numBits)
      ensures found <==> KeyBits(sh, k) <= Ones(words[..])
    {
      PackedBits(sh, words[..], k);
      for i := 0 to sh.numHash
        invariant forall j :: 0 <= j < i ==> Bit(words[..], sh.Index(k, j))
      {
        var (longIdx, checkBit) := CalcBitidx(sh.Index(k, i));
        MeetsMask(words[longIdx], sh.Index(k, i) % 64);
        if !Meets(words[longIdx], checkBit) {
          assert !Bit(words[..], sh.Index(k, i));
          return false;
        }
      }
      found := true;
    }

    /** While merging the temporary bitmap is looked up first. */
    method MightContain(k: Key) returns (r: bool)
      requires Valid()
      ensures r <==> View().Reports(KeyBits(sh, k))
    {
      if merging {
        var found := Lookup(tmpBitmap, k);
        if found {
          return true;
        }
      }
      r := Lookup(bitmap, k);
    }

    method Blocking()
      requires Valid()
      modifies this`merging, tmpBitmap
      ensures Valid() && View() == old(View()).Block()
    {
      for i := 0 to Longs(sh.numBits)
        invariant forall j :: 0 <= j < i ==> tmpBitmap[j] == ZERO
      {
        tmpBitmap[i] := ZERO;
      }
      merging := true;
    }

    method Merge()
      requires Valid()
      modifies bitmap
      ensures Valid() && View() == old(View()).Merge()
    {
      ghost var before := bitmap[..];
      for i := 0 to Longs(sh.numBits)
        invariant forall j :: 0 <= j < i ==> bitmap[j] == Or(before[j], tmpBitmap[j])
        invariant forall j :: i <= j < bitmap.Length ==> bitmap[j] == before[j]
      {
        bitmap[i] := Or(bitmap[i], tmpBitmap[i]);
      }
      forall idx | 0 <= idx < bitmap.Length * 64
        ensures Bit(bitmap[..], idx) <==> Bit(before, idx) || Bit(tmpBitmap[..], idx)
      {
        assert bitmap[..][idx / 64] == Or(before[idx / 64], tmpBitmap[idx / 64]);
      }
    }

    /** Clears the switch before merging. */
    method Unblocking()
      requires Valid()
      modifies this`merging, bitmap
      ensures Valid() && View() == old(View()).Clear().Merge()
    {
      merging := false;
      Merge();
    }
  }
}
