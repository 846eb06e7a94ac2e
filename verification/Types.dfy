/** Words shared by the daemon and the driver. */
module Types {
  datatype Option<+T> = None | Some(value: T)

  /** A page key: a 64-bit word (daemon/util/pair.h). */
  type Key = k: nat | k < 0x1_0000_0000_0000_0000

  const INVALID: Key := 0xffff_ffff_ffff_ffff
  const TOMBSTONE: Key := 0xffff_ffff_ffff_fffc

  /** The address of a page slot, or NONE, the null pointer. */
  type Addr = nat

  const NONE: Addr := 0

  /** The address -1, by which the pool says it has no slot. */
  const BAD: Addr := 0xffff_ffff_ffff_ffff

  /** size_t arithmetic wraps at 2^64. */
  const WORD: nat := 0x1_0000_0000_0000_0000

  const MB: nat := 0x10_0000

  // ---- Sequences without repetition ----

  ghost predicate Distinct(l: seq<nat>) {
    forall i, j :: 0 <= i < j < |l| ==> l[i] != l[j]
  }

  /** A sequence of distinct members of a set is no longer than the set. */
  lemma {:induction false} DistinctFits(l: seq<nat>, s: set<nat>)
    requires Distinct(l)
    requires forall i :: 0 <= i < |l| ==> l[i] in s
    ensures |l| <= |s|
  {
    if l != [] {
      var n := |l| - 1;
      DistinctFits(l[..n], s - {l[n]});
    }
  }

  /** And as long, if it lists them all. */
  lemma {:induction false} DistinctCovers(l: seq<nat>, s: set<nat>)
    requires Distinct(l)
    requires forall a :: a in s <==> a in l
    ensures |l| == |s|
  {
    if l != [] {
      var n := |l| - 1;
      assert l == l[..n] + [l[n]];
      DistinctCovers(l[..n], s - {l[n]});
    } else {
      assert s == {};
    }
  }
}
