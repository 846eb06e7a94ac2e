/** The counting Bloom filter: one byte per position, and the packed ordinary filter made from it. */
module CountingFilter {
  import opened Types
  import opened Bits

  /** The filter's parameters; the hash is an arbitrary function of key and salt. */
  datatype Shape = Shape(numHash: nat, numBits: nat, hash: (Key, nat) -> nat) {
    predicate Ok() {
      numBits > 0
    }

    function Index(k: Key, salt: nat): (idx: nat)
      requires Ok()
      ensures idx < numBits
    {
      hash(k, salt) % numBits
    }

    /** How many of the first n salts map the key to idx. */
    function Hits(k: Key, n: nat, idx: nat): (h: nat)
      requires Ok()
      ensures h <= n
    {
      if n == 0 then 0 else Hits(k, n - 1, idx) + if Index(k, n - 1) == idx then 1 else 0
    }
  }

  /** A counter at 255 is not incremented but set to 1. */
  function Up(c: nat): nat {
    if c < 255 then c + 1 else 1
  }

  /** A byte wraps below zero. */
  function Down(c: nat): nat {
    if c == 0 then 255 else c - 1
  }

  function Raise(sh: Shape, cs: seq<nat>, k: Key, n: nat): (r: seq<nat>)
    requires sh.Ok() && |cs| == sh.numBits
    ensures |r| == |cs|
  {
    if n == 0 then cs
    else var r := Raise(sh, cs, k, n - 1); var i := sh.Index(k, n - 1); r[i := Up(r[i])]
  }

  function Lower(sh: Shape, cs: seq<nat>, k: Key, n: nat): (r: seq<nat>)
    requires sh.Ok() && |cs| == sh.numBits
    ensures |r| == |cs|
  {
    if n == 0 then cs
    else var r := Lower(sh, cs, k, n - 1); var i := sh.Index(k, n - 1); r[i := Down(r[i])]
  }

  /** Every salt's counter is positive. */
  predicate Contains(sh: Shape, cs: seq<nat>, k: Key)
    requires sh.Ok() && |cs| == sh.numBits
  {
    forall i :: 0 <= i < sh.numHash ==> cs[sh.Index(k, i)] > 0
  }

  /** A packed filter reports the key present. */
  ghost predicate InPacked(sh: Shape, words: seq<Word>, k: Key)
    requires sh.Ok() && |words| == Longs(sh.numBits)
  {
    forall i :: 0 <= i < sh.numHash ==> Bit(words, sh.Index(k, i))
  }

  // ---- The multiset the counters stand for ----

  /** Summed over the multiset, how many salts map a key to idx. */
  ghost function Total(sh: Shape, ms: multiset<Key>, idx: nat): nat
    requires sh.Ok()
    decreases |ms|
  {
    if ms == multiset{} then 0
    else var k :| k in ms; sh.Hits(k, sh.numHash, idx) + Total(sh, ms - multiset{k}, idx)
  }

  lemma {:induction false} TotalWithout(sh: Shape, ms: multiset<Key>, idx: nat, k: Key)
    requires sh.Ok() && k in ms
    ensures Total(sh, ms, idx) == sh.Hits(k, sh.numHash, idx) + Total(sh, ms - multiset{k}, idx)
    decreases |ms|
  {
    var j :| j in ms && Total(sh, ms, idx) == sh.Hits(j, sh.numHash, idx) + Total(sh, ms - multiset{j}, idx);
    if j != k {
      TotalWithout(sh, ms - multiset{j}, idx, k);
      TotalWithout(sh, ms - multiset{k}, idx, j);
      assert ms - multiset{j} - multiset{k} == ms - multiset{k} - multiset{j};
    }
  }

  lemma TotalWith(sh: Shape, ms: multiset<Key>, idx: nat, k: Key)
    requires sh.Ok()
    ensures Total(sh, ms + multiset{k}, idx) == Total(sh, ms, idx) + sh.Hits(k, sh.numHash, idx)
  {
    TotalWithout(sh, ms + multiset{k}, idx, k);
    assert ms + multiset{k} - multiset{k} == ms;
  }

  lemma {:induction false} TotalPlus(sh: Shape, a: multiset<Key>, b: multiset<Key>, idx: nat)
    requires sh.Ok()
    ensures Total(sh, a + b, idx) == Total(sh, a, idx) + Total(sh, b, idx)
    decreases |b|
  {
    if b == multiset{} {
      assert a + b == a;
    } else {
      var k :| k in b;
      TotalPlus(sh, a, b - multiset{k}, idx);
      TotalWithout(sh, b, idx, k);
      TotalWithout(sh, a + b, idx, k);
      assert a + b - multiset{k} == a + (b - multiset{k});
    }
  }

  lemma TotalGrows(sh: Shape, a: multiset<Key>, b: multiset<Key>, idx: nat)
    requires sh.Ok() && a <= b
    ensures Total(sh, a, idx) <= Total(sh, b, idx)
  {
    TotalPlus(sh, a, b - a, idx);
    assert a + (b - a) == b;
  }

  ghost predicate Exact(sh: Shape, cs: seq<nat>, ms: multiset<Key>)
    requires sh.Ok() && |cs| == sh.numBits
  {
    forall idx :: 0 <= idx < sh.numBits ==> cs[idx] == Total(sh, ms, idx)
  }

  /** No counter is at 255 when the insertion reaches it. */
  ghost predicate NoOverflow(sh: Shape, cs: seq<nat>, k: Key)
    requires sh.Ok() && |cs| == sh.numBits
  {
    forall idx :: 0 <= idx < sh.numBits && sh.Hits(k, sh.numHash, idx) > 0 ==>
        cs[idx] + sh.Hits(k, sh.numHash, idx) <= 255
  }

  lemma {:induction false} HitsGrow(sh: Shape, k: Key, m: nat, n: nat, idx: nat)
    requires sh.Ok() && m <= n
    ensures sh.Hits(k, m, idx) <= sh.Hits(k, n, idx)
    decreases n
  {
    if m < n { HitsGrow(sh, k, m, n - 1, idx); }
  }

  lemma {:induction false} RaiseAdds(sh: Shape, cs: seq<nat>, k: Key, n: nat)
    requires sh.Ok() && |cs| == sh.numBits && n <= sh.numHash && NoOverflow(sh, cs, k)
    ensures forall idx :: 0 <= idx < sh.numBits ==> Raise(sh, cs, k, n)[idx] == cs[idx] + sh.Hits(k, n, idx)
  {
    if n > 0 {
      RaiseAdds(sh, cs, k, n - 1);
      HitsGrow(sh, k, n, sh.numHash, sh.Index(k, n - 1));
    }
  }

  lemma {:induction false} RaiseBytes(sh: Shape, cs: seq<nat>, k: Key, n: nat)
    requires sh.Ok() && |cs| == sh.numBits && forall i :: 0 <= i < |cs| ==> cs[i] < 256
    ensures forall i :: 0 <= i < |cs| ==> Raise(sh, cs, k, n)[i] < 256
    ensures forall i :: 0 <= i < |cs| && cs[i] > 0 ==> Raise(sh, cs, k, n)[i] > 0
    ensures forall i :: 0 <= i < |cs| && sh.Hits(k, n, i) == 0 ==> Raise(sh, cs, k, n)[i] == cs[i]
  {
    if n > 0 {
      RaiseBytes(sh, cs, k, n - 1);
    }
  }

  /** Insertion refines adding to the multiset exactly when no counter it reaches is at 255. */
  lemma InsertIsExact(sh: Shape, cs: seq<nat>, ms: multiset<Key>, k: Key)
    requires sh.Ok() && |cs| == sh.numBits && Exact(sh, cs, ms)
    requires forall i :: 0 <= i < |cs| ==> cs[i] < 256
    ensures Exact(sh, Raise(sh, cs, k, sh.numHash), ms + multiset{k}) <==> NoOverflow(sh, cs, k)
  {
    forall idx ensures Total(sh, ms + multiset{k}, idx) == Total(sh, ms, idx) + sh.Hits(k, sh.numHash, idx) {
      TotalWith(sh, ms, idx, k);
    }
    RaiseBytes(sh, cs, k, sh.numHash);
    if NoOverflow(sh, cs, k) {
      RaiseAdds(sh, cs, k, sh.numHash);
    } else {
      var idx :| 0 <= idx < sh.numBits && sh.Hits(k, sh.numHash, idx) > 0
          && cs[idx] + sh.Hits(k, sh.numHash, idx) > 255;
      assert Raise(sh, cs, k, sh.numHash)[idx] != Total(sh, ms + multiset{k}, idx);
    }
  }

  lemma {:induction false} LowerTakes(sh: Shape, cs: seq<nat>, k: Key, n: nat)
    requires sh.Ok() && |cs| == sh.numBits
    requires forall idx :: 0 <= idx < sh.numBits ==> sh.Hits(k, n, idx) <= cs[idx]
    ensures forall idx :: 0 <= idx < sh.numBits ==> Lower(sh, cs, k, n)[idx] == cs[idx] - sh.Hits(k, n, idx)
  {
    if n > 0 { LowerTakes(sh, cs, k, n - 1); }
  }

  lemma {:induction false} HitSome(sh: Shape, k: Key, n: nat, i: nat)
    requires sh.Ok() && i < n
    ensures sh.Hits(k, n, sh.Index(k, i)) > 0
  {
    if i < n - 1 { HitSome(sh, k, n - 1, i); }
  }

  /** A member is reported present, and removing it underflows no counter. */
  lemma MemberRemoves(sh: Shape, cs: seq<nat>, ms: multiset<Key>, k: Key)
    requires sh.Ok() && |cs| == sh.numBits && Exact(sh, cs, ms) && k in ms
    ensures Contains(sh, cs, k)
    ensures forall idx :: 0 <= idx < sh.numBits ==> sh.Hits(k, sh.numHash, idx) <= cs[idx]
    ensures forall idx :: 0 <= idx < sh.numBits ==>
      Lower(sh, cs, k, sh.numHash)[idx] == cs[idx] - sh.Hits(k, sh.numHash, idx)
    ensures Exact(sh, Lower(sh, cs, k, sh.numHash), ms - multiset{k})
    ensures forall j :: NoOverflow(sh, cs, j) ==> NoOverflow(sh, Lower(sh, cs, k, sh.numHash), j)
  {
    forall idx | 0 <= idx < sh.numBits
      ensures Total(sh, ms, idx) == sh.Hits(k, sh.numHash, idx) + Total(sh, ms - multiset{k}, idx)
    {
      TotalWithout(sh, ms, idx, k);
    }
    LowerTakes(sh, cs, k, sh.numHash);
    forall i | 0 <= i < sh.numHash ensures cs[sh.Index(k, i)] > 0 { HitSome(sh, k, sh.numHash, i); }
  }

  // ---- The filter ----

  class CountingBloomFilter {
    const sh: Shape
    const counters: array<nat>
    const words: array<Word>
    ghost var contents: multiset<Key>

    ghost predicate Valid()
      reads this, counters
    {
      && sh.Ok() && sh.numHash < 256 && counters.Length == sh.numBits && words.Length == Longs(sh.numBits)
      && forall i :: 0 <= i < counters.Length ==> counters[i] < 256
    }

    /** The counters are those of the multiset of keys inserted and not removed. */
    ghost predicate Refines()
      requires Valid()
      reads this, counters
    {
      Exact(sh, counters[..], contents)
    }

    constructor (sh: Shape)
      requires sh.Ok() && sh.numHash < 256
      ensures Valid() && this.sh == sh && fresh(counters) && fresh(words)
      ensures contents == multiset{} && Refines()
    {
      this.sh := sh;
      this.contents := multiset{};
      this.counters := new nat[sh.numBits](_ => 0);
      this.words := new Word[Longs(sh.numBits)](_ => ZERO);
    }

    method Insert(k: Key)
      requires Valid()
      modifies this`contents, counters
      ensures Valid() && contents == old(contents) + multiset{k}
      ensures counters[..] == Raise(sh, old(counters[..]), k, sh.numHash)
      ensures old(Refines()) ==> (Refines() <==> NoOverflow(sh, old(counters[..]), k))
    {
      ghost var cs := counters[..];
      RaiseBytes(sh, cs, k, sh.numHash);
      if Refines() { InsertIsExact(sh, cs, contents, k); }
      for i := 0 to sh.numHash
        invariant counters[..] == Raise(sh, cs, k, i) && contents == old(contents)
      {
        var idx := sh.Index(k, i);
        counters[idx] := Up(counters[idx]);
      }
      contents := contents + multiset{k};
      assert forall i :: 0 <= i < counters.Length ==> counters[i] == counters[..][i];
    }

    method MightContain(k: Key) returns (r: bool)
      requires Valid()
      ensures r == Contains(sh, counters[..], k)
      ensures Refines() && k in contents ==> r
    {
      if Refines() && k in contents { MemberRemoves(sh, counters[..], contents, k); }
      for i := 0 to sh.numHash
        invariant forall j :: 0 <= j < i ==> counters[sh.Index(k, j)] > 0
      {
        if counters[sh.Index(k, i)] == 0 {
          return false;
        }
      }
      r := true;
    }

    /** A key not reported present is left alone. */
    method Remove(k: Key) returns (r: bool)
      requires Valid()
      modifies this`contents, counters
      ensures Valid() && r == Contains(sh, old(counters[..]), k)
      ensures contents == if r then old(contents) - multiset{k} else old(contents)
      ensures counters[..] == if r then Lower(sh, old(counters[..]), k, sh.numHash) else old(counters[..])
      ensures old(Refines()) && k in old(contents) ==> r && Refines()
      ensures old(Refines()) && k in old(contents) ==>
        forall j :: NoOverflow(sh, old(counters[..]), j) ==> NoOverflow(sh, counters[..], j)
    {
      ghost var cs := counters[..];
      if Refines() && k in contents { MemberRemoves(sh, cs, contents, k); }
      r := MightContain(k);
      if r {
        for i := 0 to sh.numHash
          invariant counters[..] == Lower(sh, cs, k, i) && contents == old(contents)
          invariant forall j :: 0 <= j < counters.Length ==> counters[j] < 256
        {
          var idx := sh.Index(k, i);
          counters[idx] := Down(counters[idx]);
        }
        contents := contents - multiset{k};
      }
    }

    /** The packed filter is exact: a bit is set if and only if its counter is positive, the bits past the
        last position are clear, and it answers as the counters do for every key. */
    method ToOrdinaryBF()
      requires Valid()
      modifies words
      ensures Valid()
      ensures forall idx :: 0 <= idx < words.Length * 64 ==>
        (Bit(words[..], idx) <==> idx < sh.numBits && counters[idx] > 0)
      ensures forall k :: BFContains(k) <==> Contains(sh, counters[..], k)
    {
      for i := 0 to words.Length
        invariant forall j :: 0 <= j < i ==> words[j] == ZERO
      {
        words[i] := ZERO;
      }
      for i := 0 to sh.numBits
        invariant forall idx :: 0 <= idx < words.Length * 64 ==> (Bit(words[..], idx) <==> idx < i && counters[idx] > 0)
      {
        if counters[i] > 0 {
          ghost var before := words[..];
          words[i / 64] := Or(words[i / 64], Mask(i % 64));
          SetBit(before, words[..], i);
        }
      }
    }

    ghost predicate BFContains(k: Key)
      requires sh.Ok() && words.Length == Longs(sh.numBits)
      reads words
    {
      InPacked(sh, words[..], k)
    }

    method BFMightContain(k: Key) returns (r: bool)
      requires Valid()
      ensures r == BFContains(k)
    {
      for i := 0 to sh.numHash
        invariant forall j :: 0 <= j < i ==> Bit(words[..], sh.Index(k, j))
      {
        var idx := sh.Index(k, i);
        MeetsMask(words[idx / 64], idx % 64);
        if !Meets(words[idx / 64], Mask(idx % 64)) {
          return false;
        }
      }
      r := true;
    }
  }
}
