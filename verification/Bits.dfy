/** Packed bit arrays: 64-bit words written out bit by bit, and the operators the filters use on them. */
module Bits {
  /** Element i is bit i. */
  type Word = w: seq<bool> | |w| == 64 witness seq(64, _ => false)

  const ZERO: Word := seq(64, _ => false)

  /** 1UL << shift. */
  function Mask(shift: nat): Word
    requires shift < 64
  {
    seq(64, i => i == shift)
  }

  function Or(a: Word, b: Word): Word {
    seq(64, i requires 0 <= i < 64 => a[i] || b[i])
  }

  /** a & b is not zero. */
  predicate Meets(a: Word, b: Word) {
    exists i :: 0 <= i < 64 && a[i] && b[i]
  }

  lemma MeetsMask(w: Word, shift: nat)
    requires shift < 64
    ensures Meets(w, Mask(shift)) <==> w[shift]
  {
    if w[shift] { assert w[shift] && Mask(shift)[shift]; }
  }

  function Longs(bits: nat): nat {
    (bits + 63) / 64
  }

  /** Bit idx of packed words. */
  predicate Bit(words: seq<Word>, idx: nat)
    requires idx / 64 < |words|
  {
    words[idx / 64][idx % 64]
  }

  /** Or-ing one mask in sets that bit and no other. */
  lemma SetBit(before: seq<Word>, words: seq<Word>, i: nat)
    requires i / 64 < |before| && words == before[i / 64 := Or(before[i / 64], Mask(i % 64))]
    ensures forall idx :: 0 <= idx < |before| * 64 ==> (Bit(words, idx) <==> Bit(before, idx) || idx == i)
  {
    forall idx | 0 <= idx < |before| * 64 ensures Bit(words, idx) <==> Bit(before, idx) || idx == i {
      assert idx == i <==> idx / 64 == i / 64 && idx % 64 == i % 64;
    }
  }
}
