/** The key-value layer: the table, the slot pool and one counting filter per client. Each operation is
    one atomic step; random list choices, the clock and try_lock outcomes are arbitrary. */
module KeyValue {
  import opened Types
  import opened LongKey
  import opened ProbeTable
  import opened LinearProbing
  import opened SlotPool
  import opened CountingFilter
  import opened Bits

  // ---- Who holds which slot ----

  /** Stored values are distinct handed-out slots, and every stored key names one of the n clients. */
  ghost predicate Backed(m: map<Key, Addr>, out: map<Addr, nat>, n: nat) {
    && (forall k :: k in m ==> m[k] in out && Cid(k) < n)
    && (forall j, k :: j in m && k in m && m[j] == m[k] ==> j == k)
  }

  /** Every stored slot was handed out to the client named by its key. */
  ghost predicate Honest(m: map<Key, Addr>, out: map<Addr, nat>) {
    forall k :: k in m ==> m[k] in out && out[m[k]] == Cid(k)
  }

  ghost predicate Stores(m: map<Key, Addr>, a: Addr) {
    exists k :: k in m && m[k] == a
  }

  /** The slots handed out and not in the table: posted receives, and those in a handler's hand. */
  ghost function Loose(m: map<Key, Addr>, out: map<Addr, nat>): set<Addr> {
    set a | a in out && !Stores(m, a)
  }

  lemma LooseOut(m: map<Key, Addr>, out: map<Addr, nat>)
    ensures forall a :: a in Loose(m, out) ==> a in out
  {
  }

  ghost function StoredSlots(m: map<Key, Addr>): set<Addr> {
    set k | k in m :: m[k]
  }

  lemma {:induction false} StoredSize(m: map<Key, Addr>, out: map<Addr, nat>, n: nat)
    requires Backed(m, out, n)
    ensures |StoredSlots(m)| == |m|
    decreases |m|
  {
    if m != map[] {
      var k :| k in m;
      StoredSize(m - {k}, out, n);
      assert StoredSlots(m) == StoredSlots(m - {k}) + {m[k]};
    }
  }

  lemma NothingStored(n: nat, contents: seq<multiset<Key>>)
    ensures Backed(map[], map[], n) && Honest(map[], map[]) && Counted(map[], contents)
  {
  }

  lemma PutIn(m: map<Key, Addr>, out: map<Addr, nat>, n: nat, key: Key, value: Addr)
    requires Backed(m, out, n) && key !in m && value in Loose(m, out) && Cid(key) < n
    ensures Backed(m[key := value], out, n)
    ensures Loose(m[key := value], out) == Loose(m, out) - {value}
  {
    var m' := m[key := value];
    assert forall k :: k in m ==> Stores(m, m[k]);
    forall a | a in out ensures Stores(m', a) <==> a == value || Stores(m, a) {
      if Stores(m, a) {
        var k :| k in m && m[k] == a;
        assert m'[k] == a;
      }
      assert m'[key] == value;
    }
  }

  lemma TakeOut(m: map<Key, Addr>, out: map<Addr, nat>, n: nat, key: Key)
    requires Backed(m, out, n) && key in m
    ensures Backed(m - {key}, out, n)
    ensures Loose(m - {key}, out) == Loose(m, out) + {m[key]} && m[key] !in Loose(m, out)
  {
    var m' := m - {key};
    forall a | a in out ensures Stores(m', a) <==> a != m[key] && Stores(m, a) {
      if a != m[key] && Stores(m, a) {
        var k :| k in m && m[k] == a;
        assert k in m' && m'[k] == a;
      }
    }
    assert Stores(m, m[key]);
  }

  lemma Release(m: map<Key, Addr>, out: map<Addr, nat>, n: nat, a: Addr)
    requires Backed(m, out, n) && a in Loose(m, out)
    ensures Backed(m, out - {a}, n) && Loose(m, out - {a}) == Loose(m, out) - {a}
    ensures Honest(m, out) ==> Honest(m, out - {a})
  {
    assert forall k :: k in m ==> Stores(m, m[k]);
  }

  lemma Acquire(m: map<Key, Addr>, out: map<Addr, nat>, n: nat, a: Addr, c: nat)
    requires Backed(m, out, n) && a !in out
    ensures Backed(m, out[a := c], n) && Loose(m, out[a := c]) == Loose(m, out) + {a}
    ensures Honest(m, out) ==> Honest(m, out[a := c])
  {
    assert forall k :: k in m ==> m[k] != a;
  }

  /** Every stored key has been counted by its client's filter. */
  ghost predicate Counted(m: map<Key, Addr>, contents: seq<multiset<Key>>) {
    forall k :: k in m ==> Cid(k) < |contents| && k in contents[Cid(k)]
  }

  lemma CountedAt(m: map<Key, Addr>, contents: seq<multiset<Key>>, k: Key)
    requires Counted(m, contents) && k in m
    ensures Cid(k) < |contents| && k in contents[Cid(k)]
  {
  }

  /** A duplicate's slot goes from the table to a free list. */
  lemma DropKeeps(m: map<Key, Addr>, out: map<Addr, nat>, n: nat, key: Key)
    requires Backed(m, out, n) && key in m
    ensures m[key] in out && Cid(key) < n
    ensures Backed(m - {key}, out - {m[key]}, n) && Loose(m - {key}, out - {m[key]}) == Loose(m, out)
    ensures Honest(m, out) ==> Honest(m - {key}, out - {m[key]}) && out[m[key]] == Cid(key)
  {
    TakeOut(m, out, n, key);
    Release(m - {key}, out, n, m[key]);
  }

  /** What an insertion without a duplicate does: the pair is stored, in place of a victim whose slot is
      freed if there is one, or the caller's own slot is freed. */
  ghost predicate Settled(m: map<Key, Addr>, out: map<Addr, nat>, m': map<Key, Addr>, out': map<Addr, nat>, key: Key,
                          value: Addr, stored: bool, victim: Option<Key>) {
    if !stored then victim.None? && m' == m && out' == out - {value}
    else if victim.None? then m' == m[key := value] && out' == out
    else victim.value in m && m' == (m - {victim.value})[key := value] && out' == out - {m[victim.value]}
  }

  lemma SettledKeeps(m: map<Key, Addr>, out: map<Addr, nat>, m': map<Key, Addr>, out': map<Addr, nat>, n: nat,
                     key: Key, value: Addr, stored: bool, victim: Option<Key>)
    requires Backed(m, out, n) && key !in m && value in Loose(m, out) && Cid(key) < n
    requires Settled(m, out, m', out', key, value, stored, victim)
    ensures Backed(m', out', n) && Loose(m', out') == Loose(m, out) - {value}
    ensures Honest(m, out) && out[value] == Cid(key) ==> Honest(m', out')
  {
    if !stored {
      Release(m, out, n, value);
    } else if victim.None? {
      PutIn(m, out, n, key, value);
    } else {
      DropKeeps(m, out, n, victim.value);
      PutIn(m - {victim.value}, out', n, key, value);
    }
  }

  /** The contents of n filters no key was counted by. */
  ghost function Blank(n: nat): seq<multiset<Key>> {
    seq(n, _ => multiset{})
  }

  /** The filters' contents after a key is counted by client c's, or taken off it. */
  ghost function WithKey(contents: seq<multiset<Key>>, c: nat, k: Key): seq<multiset<Key>> {
    if c < |contents| then contents[c := contents[c] + multiset{k}] else contents
  }

  ghost function WithoutKey(contents: seq<multiset<Key>>, c: nat, k: Key): seq<multiset<Key>> {
    if c < |contents| then contents[c := contents[c] - multiset{k}] else contents
  }

  /** The keys that carry client c's id. */
  ghost function OfClient(keys: set<Key>, c: nat): set<Key> {
    set k | k in keys && Cid(k) == c
  }

  /** The keys gone are taken off their own clients' filters. */
  ghost predicate Uncounted(contents: seq<multiset<Key>>, gone: set<Key>, contents': seq<multiset<Key>>) {
    && |contents'| == |contents|
    && forall c: nat :: c < |contents| ==> contents'[c] == contents[c] - multiset(OfClient(gone, c))
  }

  lemma NothingUncounted(contents: seq<multiset<Key>>)
    ensures Uncounted(contents, {}, contents)
  {
    assert forall c :: OfClient({}, c) == {};
  }

  lemma OneMoreGone(ks: multiset<Key>, gone: set<Key>, c: nat, k: Key)
    requires k !in gone
    ensures ks - multiset(OfClient(gone + {k}, c)) ==
      if Cid(k) == c then ks - multiset(OfClient(gone, c)) - multiset{k} else ks - multiset(OfClient(gone, c))
  {
    hide Cid;
    assert OfClient(gone + {k}, c) == if Cid(k) == c then OfClient(gone, c) + {k} else OfClient(gone, c);
  }

  lemma UncountedNext(contents: seq<multiset<Key>>, gone: set<Key>, contents': seq<multiset<Key>>, k: Key,
                      contents'': seq<multiset<Key>>)
    requires Uncounted(contents, gone, contents') && k !in gone && contents'' == WithoutKey(contents', Cid(k), k)
    ensures Uncounted(contents, gone + {k}, contents'')
  {
    hide OfClient, Cid;
    forall c: nat | c < |contents| ensures contents''[c] == contents[c] - multiset(OfClient(gone + {k}, c)) {
      OneMoreGone(contents[c], gone, c, k);
    }
  }

  /** A stored key is counted, and a victim taken off its own client's filter. */
  ghost function Recounted(contents: seq<multiset<Key>>, c: nat, k: Key, stored: bool,
                           victim: Option<Key>): seq<multiset<Key>> {
    var less := if victim.Some? then WithoutKey(contents, Cid(victim.value), victim.value) else contents;
    if stored then WithKey(less, c, k) else less
  }

  /** Counting the new key and taking a gone one off keep every stored key counted. */
  lemma CountedKeeps(m: map<Key, Addr>, contents: seq<multiset<Key>>, key: Key, value: Addr)
    requires Counted(m, contents)
    ensures Cid(key) < |contents| ==> Counted(m[key := value], contents[Cid(key) := contents[Cid(key)] + multiset{key}])
    ensures key in m ==> Counted(m - {key}, contents[Cid(key) := contents[Cid(key)] - multiset{key}])
  {
  }

  /** A tenth more buckets than pages, rounded up to a multiple of 8. */
  function Buckets(pages: nat): (cap: nat)
    requires pages >= WINDOW
    ensures cap % 8 == 0 && cap > WINDOW && pages * 110 / 100 <= cap < pages * 110 / 100 + 8
  {
    RoundUp(pages * 110 / 100);
    var cap := pages * 110 / 100;
    if cap % 8 != 0 then cap + (8 - cap % 8) else cap
  }

  lemma RoundUp(cap: nat)
    ensures (cap + (8 - cap % 8)) % 8 == 0
  {
    assert cap + (8 - cap % 8) == 8 * (cap / 8 + 1);
  }

  /** What one pass of the evictor's loop achieved. */
  datatype Relief = Borrowed | Evicted(key: Key) | Stalled

  /** The eviction threshold is kept in a 32-bit int. */
  function ToInt32(w: nat): (i: int)
    ensures w < 0x8000_0000 ==> i == w
  {
    var r := w % 0x1_0000_0000;
    if r < 0x8000_0000 then r else r - 0x1_0000_0000
  }

  /** The evictions after which a round goes on. */
  function EvictLimit(thldFree: nat): (limit: nat)
    ensures thldFree / PAGE_SIZE < 0x8000_0000 ==> limit == thldFree / PAGE_SIZE
  {
    var t := ToInt32(thldFree / PAGE_SIZE);
    if t < 0 then 0 else t
  }

  // ---- The class ----

  class KV {
    const table: LinearProbingApprox
    const pool: PerCPUPool
    const cbfOn: bool
    const cbfs: seq<CountingBloomFilter>
    /** The filters and their counters. */
    ghost const filterRepr: set<object>

    constructor (startAddr: nat, memPoolSize: nat, numClients: nat, perCli: nat, hash: Hash, cbfOn: bool, sh: Shape)
      requires 0 < numClients && perCli > 0 && startAddr > 0 && startAddr + memPoolSize < WORD
      requires memPoolSize / PAGE_SIZE >= WINDOW && sh.Ok() && sh.numHash < 256
      ensures Valid() && Accurate() && Covered() && table.Map() == map[] && table.Calm() && pool.out == map[]
      ensures pool.numClients == numClients && pool.perCli == perCli && this.cbfOn == cbfOn
      ensures table.capacity % 8 == 0 && table.capacity > WINDOW
      ensures var least := memPoolSize / PAGE_SIZE * 110 / 100; least <= table.capacity < least + 8
      ensures pool.chunks == Chunks(startAddr, InitSlots(memPoolSize, numClients, perCli))
      ensures Shaped(sh) && Contents() == Blank(|cbfs|)
      ensures fresh(OtherRepr() + filterRepr)
    {
      hide LinearProbingApprox.Valid, LinearProbingApprox.Map, PerCPUPool.Valid, PerCPUPool.UsageExact,
        CountingBloomFilter.Valid, CountingBloomFilter.Refines, InitSlots, Chunks, LinearProbingApprox.Calm, Backed,
        Honest, Counted;
      var n := if cbfOn then numClients else 0;
      var t, p, fs, repr := MakeParts(startAddr, memPoolSize, numClients, perCli, hash, n, sh);
      this.table, this.pool, this.cbfOn, this.cbfs, this.filterRepr := t, p, cbfOn, fs, repr;
      new;
      NothingStored(numClients, Contents());
    }

    static method MakeParts(startAddr: nat, memPoolSize: nat, numClients: nat, perCli: nat, hash: Hash, n: nat,
                            sh: Shape)
      returns (t: LinearProbingApprox, p: PerCPUPool, fs: seq<CountingBloomFilter>, ghost repr: set<object>)
      requires 0 < numClients && perCli > 0 && startAddr > 0 && startAddr + memPoolSize < WORD
      requires memPoolSize / PAGE_SIZE >= WINDOW && sh.Ok() && sh.numHash < 256
      ensures t.Valid() && t.Map() == map[] && t.Calm() && t.capacity % 8 == 0 && t.capacity > WINDOW
      ensures var least := memPoolSize / PAGE_SIZE * 110 / 100; least <= t.capacity < least + 8
      ensures p.Valid() && p.UsageExact() && p.out == map[] && p.numClients == numClients && p.perCli == perCli
      ensures p.chunks == Chunks(startAddr, InitSlots(memPoolSize, numClients, perCli))
      ensures |fs| == n && Made(fs, sh) && forall c :: 0 <= c < n ==>
        fs[c] in repr && fs[c].counters in repr && fs[c].words !in repr
      ensures repr !! {t, t.buckets, p, p.allocs, p.useds, p.lists}
      ensures fresh({t, t.buckets, p, p.allocs, p.useds, p.lists} + repr)
    {
      hide LinearProbingApprox.Valid, LinearProbingApprox.Map, PerCPUPool.Valid, PerCPUPool.UsageExact, Buckets,
        LaidOut, CountingBloomFilter.Valid, CountingBloomFilter.Refines, InitSlots, Chunks, InitChunks, AllAlike,
        Within, LinearProbingApprox.Calm, Made;
      var cap := Buckets(memPoolSize / PAGE_SIZE);
      t := new LinearProbingApprox(cap, hash);
      p := new PerCPUPool(startAddr, memPoolSize, numClients, perCli);
      fs, repr := MakeFilters(n, sh);
    }

    /** Distinct new filters of the shape. */
    static ghost predicate Made(fs: seq<CountingBloomFilter>, sh: Shape)
      reads fs, set f: CountingBloomFilter | f in fs :: f.counters
    {
      && (forall c :: 0 <= c < |fs| ==>
            fs[c].Valid() && fs[c].Refines() && fs[c].contents == multiset{} && fs[c].sh == sh)
      && (forall c, d :: 0 <= c < |fs| && 0 <= d < |fs| && c != d ==>
            fs[c] != fs[d] && fs[c].counters != fs[d].counters)
    }

    static method MakeFilters(n: nat, sh: Shape) returns (fs: seq<CountingBloomFilter>, ghost repr: set<object>)
      requires sh.Ok() && sh.numHash < 256
      ensures |fs| == n && fresh(repr) && Made(fs, sh)
      ensures forall c :: 0 <= c < n ==> fs[c] in repr && fs[c].counters in repr && fs[c].words !in repr
    {
      hide CountingBloomFilter.Valid, CountingBloomFilter.Refines;
      fs, repr := [], {};
      for i := 0 to n
        invariant |fs| == i && fresh(repr) && Made(fs, sh)
        invariant forall c :: 0 <= c < i ==> fs[c] in repr && fs[c].counters in repr && fs[c].words !in repr
      {
        var f := new CountingBloomFilter(sh);
        fs, repr := fs + [f], repr + {f, f.counters};
      }
    }

    /** All filters have the shape. */
    ghost predicate Shaped(sh: Shape) {
      forall c :: 0 <= c < |cbfs| ==> cbfs[c].sh == sh
    }

    ghost function OtherRepr(): set<object> {
      {table, table.buckets, pool, pool.allocs, pool.useds, pool.lists}
    }

    ghost predicate FiltersValid()
      reads filterRepr
    {
      && |cbfs| == (if cbfOn then pool.numClients else 0)
      && (forall c :: 0 <= c < |cbfs| ==>
            cbfs[c] in filterRepr && cbfs[c].counters in filterRepr && cbfs[c].words !in filterRepr)
      && (forall c :: 0 <= c < |cbfs| ==> cbfs[c].Valid())
      && (forall c, d :: 0 <= c < |cbfs| && 0 <= d < |cbfs| && c != d ==>
            cbfs[c] != cbfs[d] && cbfs[c].counters != cbfs[d].counters)
    }

    ghost predicate Valid()
      reads table, table.buckets, pool, pool.allocs, pool.useds, pool.lists, filterRepr
    {
      && table.Valid() && pool.Valid() && FiltersValid() && filterRepr !! OtherRepr()
      && Backed(table.Map(), pool.out, pool.numClients)
    }

    /** The slots no free list and no bucket holds. */
    ghost function InHand(): set<Addr>
      requires table.Valid()
      reads table, table.buckets, pool
    {
      Loose(table.Map(), pool.out)
    }

    lemma HandFacts()
      requires table.Valid()
      ensures forall a :: a in InHand() ==> a in pool.out && forall k :: k in table.Map() ==> table.Map()[k] != a
    {
      assert forall k :: k in table.Map() ==> Stores(table.Map(), table.Map()[k]);
    }

    /** Every slot handed out is in the table or in hand. */
    lemma OutSize()
      requires Valid()
      ensures |pool.out| == |InHand()| + |table.Map()|
    {
      var m, hand := table.Map(), InHand();
      assert forall k :: k in m ==> Stores(m, m[k]);
      StoredSize(m, pool.out, pool.numClients);
      assert pool.out.Keys == hand + StoredSlots(m);
    }

    /** Usage per client is exact, and will stay so: every stored key carries the client its slot was
        handed to. */
    ghost predicate Accurate()
      requires table.Valid()
      reads table, table.buckets, pool, pool.useds
    {
      Honest(table.Map(), pool.out) && pool.UsageExact()
    }

    ghost function Contents(): seq<multiset<Key>>
      requires FiltersValid()
      reads filterRepr
    {
      seq(|cbfs|, c requires 0 <= c < |cbfs| && cbfs[c] in filterRepr reads filterRepr => cbfs[c].contents)
    }

    ghost function Counters(c: nat): seq<nat>
      requires FiltersValid() && c < |cbfs|
      reads filterRepr
    {
      cbfs[c].counters[..]
    }

    ghost predicate AllRefine()
      requires FiltersValid()
      reads filterRepr
    {
      forall c :: 0 <= c < |cbfs| ==> cbfs[c].Refines()
    }

    /** The filters are exact and have counted every key of the map, so none is reported absent. */
    ghost predicate Covers(m: map<Key, Addr>)
      requires FiltersValid()
      reads filterRepr
    {
      cbfOn ==> AllRefine() && Counted(m, Contents())
    }

    /** Every stored key is reported present by its client's filter. */
    lemma NoFalseNegatives(k: Key)
      requires Valid() && Covered() && cbfOn && k in table.Map()
      ensures Contains(cbfs[Cid(k)].sh, cbfs[Cid(k)].counters[..], k)
    {
      var f := cbfs[Cid(k)];
      assert f.Refines() && k in Contents()[Cid(k)];
      MemberRemoves(f.sh, f.counters[..], f.contents, k);
    }

    lemma CoversLess(m: map<Key, Addr>, key: Key)
      requires FiltersValid()
      ensures Covers(m) ==> Covers(m - {key})
    {
    }

    ghost predicate Covered()
      requires table.Valid() && FiltersValid()
      reads table, table.buckets, filterRepr
    {
      Covers(table.Map())
    }

    /** Counting the key once more would overflow no counter of client c's filter. */
    ghost predicate Room(c: nat, k: Key)
      requires FiltersValid()
      reads filterRepr
    {
      c < |cbfs| ==> NoOverflow(cbfs[c].sh, cbfs[c].counters[..], k)
    }

    /** The same of filters that are exact, in terms of what they have counted. */
    ghost predicate RoomIn(contents: seq<multiset<Key>>, c: nat, k: Key) {
      c < |cbfs| && c < |contents| && cbfs[c].sh.Ok() ==>
        forall idx :: 0 <= idx < cbfs[c].sh.numBits && cbfs[c].sh.Hits(k, cbfs[c].sh.numHash, idx) > 0 ==>
          Total(cbfs[c].sh, contents[c], idx) + cbfs[c].sh.Hits(k, cbfs[c].sh.numHash, idx) <= 255
    }

    lemma RoomIs(c: nat, k: Key)
      requires FiltersValid() && AllRefine()
      ensures Room(c, k) <==> RoomIn(Contents(), c, k)
    {
      if c < |cbfs| {
        assert cbfs[c].Refines() && Contents()[c] == cbfs[c].contents;
      }
    }

    /** Counting all the keys of more would overflow no counter of client c's filter. */
    ghost predicate Fits(c: nat, more: multiset<Key>)
      requires FiltersValid()
      reads filterRepr
    {
      c < |cbfs| ==> forall idx :: 0 <= idx < cbfs[c].sh.numBits ==>
          cbfs[c].counters[idx] + Total(cbfs[c].sh, more, idx) <= 255
    }

    /** Client c's filter can count all the keys of the budget. */
    ghost predicate FitsIn(c: nat, budget: multiset<Key>) {
      c < |cbfs| && cbfs[c].sh.Ok() ==> forall idx :: 0 <= idx < cbfs[c].sh.numBits ==>
          Total(cbfs[c].sh, budget, idx) <= 255
    }

    lemma FitsIs(c: nat, more: multiset<Key>)
      requires FiltersValid() && AllRefine()
      ensures Fits(c, more) <==> (c < |cbfs| ==> FitsIn(c, Contents()[c] + more))
    {
      if c < |cbfs| {
        var f := cbfs[c];
        assert f.Refines() && Contents()[c] == f.contents;
        forall idx | 0 <= idx < f.sh.numBits
          ensures Total(f.sh, f.contents + more, idx) == f.counters[idx] + Total(f.sh, more, idx)
        {
          TotalPlus(f.sh, f.contents, more, idx);
          assert f.counters[..][idx] == Total(f.sh, f.contents, idx);
        }
      }
    }

    lemma CoveredRoom(c: nat, k: Key)
      requires Valid() && Covered()
      ensures Room(c, k) <==> RoomIn(Contents(), c, k)
    {
      RoomIs(c, k);
    }

    lemma RoomWithin(contents: seq<multiset<Key>>, c: nat, k: Key, budget: multiset<Key>)
      requires FitsIn(c, budget) && (c < |contents| ==> contents[c] + multiset{k} <= budget)
      ensures RoomIn(contents, c, k)
    {
      if c < |cbfs| && c < |contents| && cbfs[c].sh.Ok() {
        var sh := cbfs[c].sh;
        forall idx | 0 <= idx < sh.numBits ensures Total(sh, contents[c], idx) + sh.Hits(k, sh.numHash, idx) <= 255 {
          TotalWith(sh, contents[c], idx, k);
          TotalGrows(sh, contents[c] + multiset{k}, budget, idx);
        }
      }
    }

    method CountKey(c: nat, k: Key, ghost m: map<Key, Addr>, ghost value: Addr)
      requires FiltersValid() && c < pool.numClients
      modifies filterRepr
      ensures FiltersValid() && Contents() == WithKey(old(Contents()), c, k)
      ensures c < |cbfs| ==> Counters(c) == Raise(cbfs[c].sh, old(Counters(c)), k, cbfs[c].sh.numHash)
      ensures old(Covers(m)) && c == Cid(k) && old(Room(c, k)) ==> Covers(m[k := value])
    {
      hide Counted, CountingBloomFilter.Refines, CountingBloomFilter.Valid, Raise, NoOverflow;
      if cbfOn {
        ghost var contents := Contents();
        cbfs[c].Insert(k);
        assert Contents() == contents[c := contents[c] + multiset{k}];
        if Counted(m, contents) { CountedKeeps(m, contents, k, value); }
      }
    }

    method UncountKey(c: nat, k: Key, ghost m: map<Key, Addr>)
      requires FiltersValid() && c < pool.numClients
      modifies filterRepr
      ensures FiltersValid()
      ensures old(Covers(m)) && c == Cid(k) && k in m ==>
        Covers(m - {k}) && Contents() == WithoutKey(old(Contents()), c, k)
      ensures old(Covers(m)) && c == Cid(k) && k in m ==> forall d, j :: old(Room(d, j)) ==> Room(d, j)
      ensures c < |cbfs| && Contains(cbfs[c].sh, old(Counters(c)), k) ==>
        Counters(c) == Lower(cbfs[c].sh, old(Counters(c)), k, cbfs[c].sh.numHash)
    {
      hide CountingBloomFilter.Refines, CountingBloomFilter.Valid, Counted, NoOverflow, Contains, Lower;
      if cbfOn {
        ghost var contents := Contents();
        ghost var covered := Covers(m) && c == Cid(k) && k in m;
        if covered { CountedKeeps(m, contents, k, NONE); CountedAt(m, contents, k); }
        var r := cbfs[c].Remove(k);
        if covered {
          assert AllRefine();
          assert Contents() == contents[c := contents[c] - multiset{k}];
        }
      }
    }

    // ---- Insertion ----

    /** The slot joins any of the client's lists. */
    method FreeSlot(a: Addr, c: nat)
      requires pool.Valid() && a in pool.out && c < pool.numClients
      modifies pool`out, pool.useds, pool.lists
      ensures pool.Valid() && pool.out == old(pool.out) - {a}
      ensures old(pool.UsageExact()) && old(pool.out)[a] == c ==> pool.UsageExact()
      ensures forall f :: 0 <= f < pool.lists.Length ==> |pool.lists[f]| >= old(|pool.lists[f]|)
    {
      var q: nat :| q < pool.perCli;
      pool.Free(a, c, q);
    }

    /** Allocation and release as the request handlers see them. */
    method Allocate(cid: nat, qid: nat) returns (addr: Option<Addr>)
      requires Valid() && cid < pool.numClients && qid < pool.perCli
      modifies pool`out, pool.useds, pool.lists
      ensures Valid() && table.Map() == old(table.Map())
      ensures addr.None? <==> old(pool.Starved(cid, qid))
      ensures addr.None? ==> pool.out == old(pool.out) && InHand() == old(InHand())
      ensures addr.None? ==> pool.useds[..] == old(pool.useds[..]) && pool.lists[..] == old(pool.lists[..])
      ensures addr.Some? ==>
        addr.value != NONE && addr.value != BAD && addr.value !in old(pool.out)
            && pool.out == old(pool.out)[addr.value := cid]
      ensures addr.Some? ==> InHand() == old(InHand()) + {addr.value}
      ensures forall c, p :: old(pool.Starved(c, p)) ==> pool.Starved(c, p)
      ensures old(Accurate()) ==> Accurate()
      ensures old(Covered()) ==> Covered()
      ensures forall c, k :: old(Room(c, k)) ==> Room(c, k)
      ensures Contents() == old(Contents()) && forall c: nat :: c < |cbfs| ==> Counters(c) == old(Counters(c))
    {
      hide LinearProbingApprox.Valid, LinearProbingApprox.Map, PerCPUPool.Valid, PerCPUPool.UsageExact,
        KV.FiltersValid, KV.Covers, KV.Room, KV.Contents, KV.Counters, Backed, Loose, Honest, PerCPUPool.Ring,
        PerCPUPool.Taken, PerCPUPool.Starved;
      ghost var m: map<Key, Addr>, out: map<Addr, nat> := table.Map(), pool.out;
      ghost var tried;
      addr, tried := pool.Allocate(cid, qid);
      if addr.Some? {
        Acquire(m, out, pool.numClients, addr.value, cid);
        pool.OutNotNull();
        assert addr.value in pool.out;
      }
    }

    method Free(value: Addr, cid: nat)
      requires Valid() && value in InHand() && cid < pool.numClients
      modifies pool`out, pool.useds, pool.lists
      ensures Valid() && table.Map() == old(table.Map())
      ensures pool.out == old(pool.out) - {value} && InHand() == old(InHand()) - {value}
      ensures value in old(pool.out) && (old(Accurate()) && old(pool.out)[value] == cid ==> Accurate())
      ensures old(Covered()) ==> Covered()
      ensures Contents() == old(Contents())
    {
      hide LinearProbingApprox.Valid, LinearProbingApprox.Map, PerCPUPool.Valid, PerCPUPool.UsageExact,
        KV.FiltersValid, KV.Covers, KV.Contents, Backed, Loose, Honest;
      LooseOut(table.Map(), pool.out);
      Release(table.Map(), pool.out, pool.numClients, value);
      FreeSlot(value, cid);
    }

    /** One pass of Insert. A duplicate gives its old slot back and asks for another pass; otherwise the
        pair is stored, in place of a victim if need be, or the caller's own slot is freed. */
    method InsertOnce(key: Key, value: Addr, cid: nat) returns (again: bool, ghost stored: bool,
                      ghost victim: Option<Key>)
      requires Valid() && Storable(key) && Cid(key) < pool.numClients && cid < pool.numClients && value in InHand()
      modifies table.buckets, pool`out, pool.useds, pool.lists, filterRepr
      ensures Valid()
      ensures again <==> key in old(table.Map())
      ensures again ==> table.Map() == old(table.Map()) - {key} && pool.out == old(pool.out) - {old(table.Map())[key]}
      ensures !again ==> Settled(old(table.Map()), old(pool.out), table.Map(), pool.out, key, value, stored, victim)
      ensures InHand() == if again then old(InHand()) else old(InHand()) - {value}
      ensures again ==> table.RoomFor(key)
      ensures !again && old(table.RoomFor(key)) ==> stored && victim.None?
      ensures old(table.Calm()) ==> table.Calm() && (again || stored)
      ensures victim.Some? ==>
        !again && exists prevFree :: Chosen(old(table.buckets[..]), table.hash, key, prevFree, victim.value)
      ensures old(Accurate()) && cid == Cid(key) == old(pool.out)[value] ==> Accurate()
      ensures old(Covered()) && again ==> Covered() && Contents() == old(Contents())
      ensures again && old(Room(cid, key)) ==> Room(cid, key)
      ensures old(Covered()) && !again ==> Contents() == Recounted(old(Contents()), cid, key, stored, victim)
      ensures old(Covered()) && !again && cid == Cid(key) && old(Room(cid, key)) ==> Covered()
      ensures cid < |cbfs| && again ==> Counters(cid) == old(Counters(cid))
      ensures cid < |cbfs| && !again && stored && victim.None? ==>
        Counters(cid) == Raise(cbfs[cid].sh, old(Counters(cid)), key, cbfs[cid].sh.numHash)
    {
      hide LinearProbingApprox.Valid, LinearProbingApprox.Map, PerCPUPool.Valid, PerCPUPool.UsageExact,
        KV.FiltersValid, KV.Covers, KV.Room, KV.Contents, KV.Counters, Raise, LinearProbingApprox.Calm, Chosen,
        Recounted, InsertInto, Backed, Loose, Honest;
      assert value in pool.out by { LooseOut(table.Map(), pool.out); }
      table.MapStorable();
      pool.OutNotNull();
      var now: Time := *;
      var prevFree: bool := *;
      ghost var m: map<Key, Addr>, out: map<Addr, nat>, n := table.Map(), pool.out, pool.numClients;
      var ret, evKey, evValue := table.Insert(key, value, now, prevFree);
      again := evKey == INVALID && evValue != NONE;
      if again {
        DropKeeps(m, out, n, key);
        CoversLess(m, key);
        FreeSlot(evValue, cid);
        stored, victim := false, None;
      } else {
        stored := ret == 0;
        victim := Settle(key, value, cid, ret, evKey, evValue, m);
      }
    }

    /** The rest of a pass without a duplicate: a victim's slot, or the caller's own, is freed to the client
        its key names, and the filters recount. */
    method Settle(key: Key, value: Addr, cid: nat, ret: int, evKey: Key, evValue: Addr, ghost m: map<Key, Addr>)
      returns (ghost victim: Option<Key>)
      requires table.Valid() && pool.Valid() && FiltersValid() && filterRepr !! OtherRepr() && cid < pool.numClients
      requires Backed(m, pool.out, pool.numClients) && Storable(key) && Cid(key) < pool.numClients && key !in m
      requires value in Loose(m, pool.out) && value in pool.out && value != NONE
      requires forall k :: k in m ==> Storable(k) && m[k] != NONE
      requires var r := Inserted(table.buckets[..], ret, evKey, evValue); var m' := table.Map();
        Added(m, r, m', key, value) || AddedEvicting(m, r, m', key, value) || Refused(m, r, m', key, value)
      modifies pool`out, pool.useds, pool.lists, filterRepr
      ensures Valid() && InHand() == Loose(m, old(pool.out)) - {value}
      ensures Settled(m, old(pool.out), table.Map(), pool.out, key, value, ret == 0, victim)
      ensures evValue == NONE ==> victim.None?
      ensures victim.Some? ==> victim.value == evKey && evKey != INVALID && ret == 0
      ensures Honest(m, old(pool.out)) && old(pool.UsageExact()) && cid == Cid(key) == old(pool.out)[value] ==>
        Accurate()
      ensures old(Covers(m)) ==> Contents() == Recounted(old(Contents()), cid, key, ret == 0, victim)
      ensures old(Covers(m)) && cid == Cid(key) && old(Room(cid, key)) ==> Covered()
      ensures cid < |cbfs| && ret == 0 && victim.None? ==>
        Counters(cid) == Raise(cbfs[cid].sh, old(Counters(cid)), key, cbfs[cid].sh.numHash)
    {
      hide LinearProbingApprox.Valid, LinearProbingApprox.Map, PerCPUPool.Valid, PerCPUPool.UsageExact,
        KV.FiltersValid, KV.Covers, KV.Room, KV.Contents, KV.Counters, Raise, Lower, WithKey, WithoutKey,
        Backed, Loose, Honest;
      ghost var out, n := pool.out, pool.numClients;
      victim := None;
      if evKey != INVALID && evValue != NONE {
        if evKey in m { DropKeeps(m, out, n, evKey); }
        FreeSlot(evValue, Cid(evKey));
        if ret == 0 {
          victim := Some(evKey);
          UncountKey(Cid(evKey), evKey, m);
        }
      }
      if ret == 0 {
        CountKey(cid, key, if victim.None? then m else m - {victim.value}, value);
      }
      SettledKeeps(m, out, table.Map(), pool.out, n, key, value, ret == 0, victim);
    }

    /** Insert retries at most once: after a duplicate's slot is freed its window has room, so the second
        pass stores the pair. */
    method Insert(key: Key, value: Addr, cid: nat) returns (ghost passes: nat, ghost stored: bool,
                  ghost victim: Option<Key>)
      requires Valid() && Storable(key) && Cid(key) < pool.numClients && cid < pool.numClients && value in InHand()
      modifies table.buckets, pool`out, pool.useds, pool.lists, filterRepr
      ensures Valid() && InHand() == old(InHand()) - {value}
      ensures passes == if key in old(table.Map()) then 2 else 1
      ensures key in old(table.Map()) ==> stored && victim.None? && table.Map() == old(table.Map())[key := value]
      ensures key in old(table.Map()) ==> pool.out == old(pool.out) - {old(table.Map())[key]}
      ensures key !in old(table.Map()) ==>
        Settled(old(table.Map()), old(pool.out), table.Map(), pool.out, key, value, stored, victim)
      ensures stored ==>
        table.Map() == (if victim.None? then old(table.Map()) else old(table.Map()) - {victim.value})[key := value]
      ensures forall a :: a in pool.out ==> a in old(pool.out) && pool.out[a] == old(pool.out)[a]
      ensures old(table.Calm()) ==> table.Calm() && stored
      ensures victim.Some? ==> key !in old(table.Map()) && victim.value in old(table.Map())
      ensures victim.Some? ==>
        exists prevFree :: Chosen(old(table.buckets[..]), table.hash, key, prevFree, victim.value)
      ensures old(Accurate()) && cid == Cid(key) == old(pool.out)[value] ==> Accurate()
      ensures old(Covered()) && cid == Cid(key) && old(Room(cid, key)) ==> Covered()
      ensures old(Covered()) ==> Contents() == Recounted(old(Contents()), cid, key, stored, victim)
      ensures cid < |cbfs| && stored && victim.None? ==>
        Counters(cid) == Raise(cbfs[cid].sh, old(Counters(cid)), key, cbfs[cid].sh.numHash)
    {
      hide LinearProbingApprox.Valid, LinearProbingApprox.Map, LinearProbingApprox.RoomFor, LinearProbingApprox.Calm,
        Chosen, PerCPUPool.Valid, PerCPUPool.UsageExact, KV.FiltersValid, KV.Covers, KV.Room, KV.Contents,
        KV.Counters, Raise, Recounted, Backed, Loose, Honest;
      ghost var m: map<Key, Addr>, out: map<Addr, nat> := table.Map(), pool.out;
      LooseOut(m, out);
      passes := 0;
      while true
        invariant Valid() && passes <= 1 && InHand() == old(InHand()) && value in pool.out
        invariant pool.out[value] == out[value]
        invariant passes == 0 ==> table.Map() == m && pool.out == out && table.buckets[..] == old(table.buckets[..])
        invariant old(table.Calm()) ==> table.Calm()
        invariant passes == 1 ==>
          key in m && table.Map() == m - {key} && pool.out == out - {m[key]} && table.RoomFor(key)
        invariant old(Accurate()) && cid == Cid(key) == out[value] ==> Accurate()
        invariant old(Covered()) && cid == Cid(key) && old(Room(cid, key)) ==> Covered() && Room(cid, key)
        invariant old(Covered()) ==> Contents() == old(Contents()) && Covered()
        invariant cid < |cbfs| ==> Counters(cid) == old(Counters(cid))
        decreases 1 - passes
      {
        var again;
        again, stored, victim := InsertOnce(key, value, cid);
        passes := passes + 1;
        if !again {
          assert passes == 2 ==> (m - {key})[key := value] == m[key := value];
          return;
        }
        LooseOut(table.Map(), pool.out);
      }
    }

    /** The filter sent to a client: the packed form of its counting filter, with the same answer for every key.
        Every stored key of the client is in it. */
    method PackFilter(c: nat) returns (words: seq<Word>)
      requires Valid() && cbfOn && c < pool.numClients
      modifies cbfs[c].words
      ensures Valid() && words == cbfs[c].words[..] && |words| == Longs(cbfs[c].sh.numBits)
      ensures forall k :: InPacked(cbfs[c].sh, words, k) <==> Contains(cbfs[c].sh, cbfs[c].counters[..], k)
      ensures old(Covered()) ==> Covered()
      ensures Covered() ==> forall k :: k in table.Map() && Cid(k) == c ==> InPacked(cbfs[c].sh, words, k)
    {
      hide LinearProbingApprox.Valid, LinearProbingApprox.Map, PerCPUPool.Valid, Backed, Bit, KV.AllRefine;
      cbfs[c].ToOrdinaryBF();
      words := cbfs[c].words[..];
      assert forall k :: cbfs[c].BFContains(k) <==> InPacked(cbfs[c].sh, words, k);
      forall k | Covered() && k in table.Map() && Cid(k) == c ensures InPacked(cbfs[c].sh, words, k) {
        NoFalseNegatives(k);
      }
    }

    // ---- Removal and eviction ----

    /** The slot of a removed pair is left in the caller's hand. */
    method Remove(key: Key, cid: nat) returns (value: Addr)
      requires Valid() && Storable(key) && cid < pool.numClients
      modifies table.buckets, filterRepr
      ensures Valid() && table.Map() == old(table.Map()) - {key}
      ensures value == if key in old(table.Map()) then old(table.Map())[key] else NONE
      ensures key in old(table.Map()) ==>
        value != NONE && InHand() == old(InHand()) + {value} && value !in old(InHand())
      ensures key !in old(table.Map()) ==> InHand() == old(InHand())
      ensures old(table.Calm()) ==> table.Calm()
      ensures old(Accurate()) ==> Accurate() && (value != NONE ==> pool.out[value] == Cid(key))
      ensures old(Covered()) && cid == Cid(key) ==> Covered()
      ensures old(Covered()) && cid == Cid(key) ==>
        Contents() == if value == NONE then old(Contents()) else WithoutKey(old(Contents()), cid, key)
      ensures cid < |cbfs| && value != NONE && Contains(cbfs[cid].sh, old(Counters(cid)), key) ==>
        Counters(cid) == Lower(cbfs[cid].sh, old(Counters(cid)), key, cbfs[cid].sh.numHash)
    {
      hide LinearProbingApprox.Valid, LinearProbingApprox.Map, PerCPUPool.Valid, PerCPUPool.UsageExact,
        KV.FiltersValid, KV.Covers, KV.Room, KV.Contents, KV.Counters, Lower, Contains, WithoutKey, DeleteFrom, Loose,
        LinearProbingApprox.Calm;
      ghost var m: map<Key, Addr>, out := table.Map(), pool.out;
      pool.OutNotNull();
      if key in m {
        TakeOut(m, out, pool.numClients, key);
      } else {
        SameContents(m, m - {key});
      }
      value := table.Delete(key);
      if value != NONE {
        UncountKey(cid, key, m);
      }
    }

    /** The victim's slot goes back to the client its key names, and its key is taken off that client's filter. */
    method Evict(attempts: seq<Attempt>) returns (ok: bool, key: Key)
      requires Valid()
      modifies table.buckets, pool`out, pool.useds, pool.lists, filterRepr
      ensures Valid() && InHand() == old(InHand())
      ensures ok ==> key in old(table.Map()) && table.Map() == old(table.Map()) - {key}
      ensures ok ==> pool.out == old(pool.out) - {old(table.Map())[key]}
      ensures !ok ==> table.Map() == old(table.Map()) && pool.out == old(pool.out) && table.Exhausted(attempts)
      ensures !ok ==> pool.lists[..] == old(pool.lists[..]) && NoneOffers(table.buckets[..], attempts)
      ensures old(table.Calm()) ==> table.Calm()
      ensures forall f :: 0 <= f < pool.lists.Length ==> |pool.lists[f]| >= old(|pool.lists[f]|)
      ensures old(Accurate()) ==> Accurate()
      ensures old(Covered()) ==>
        Covered() && Contents() == if ok then WithoutKey(old(Contents()), Cid(key), key) else old(Contents())
    {
      hide LinearProbingApprox.Map, PerCPUPool.Valid, PerCPUPool.UsageExact, KV.FiltersValid, KV.Covers, WellFormed,
        KV.Room, KV.Contents, WithoutKey, Backed, Loose, Honest, SearchFrom, LinearProbingApprox.Calm, LeastRecent,
        Offers, NoneOffers, MayEvict, FromTries, InWindow, AllUndisturbed, TwoRanges;
      ghost var m: map<Key, Addr>, out := table.Map(), pool.out;
      var k, value, tries;
      ghost var slot;
      ok, k, value, tries, slot := table.ApproxLRUEvict(attempts);
      key := k;
      if ok {
        DropKeeps(m, out, pool.numClients, k);
        FreeSlot(value, Cid(k));
        UncountKey(Cid(k), k, m);
      }
    }

    /** One pass of the evictor's inner loop: a slot is borrowed if the chosen peer's list can lend one, and
        otherwise a page is evicted, unless none can be found. */
    method EvictorStep(fl: nat, attempts: seq<Attempt>) returns (relief: Relief)
      requires Valid() && fl < pool.lists.Length
      modifies table.buckets, pool`out, pool.allocs, pool.useds, pool.lists, filterRepr
      ensures Valid() && InHand() == old(InHand()) && pool.GetFree(fl) >= old(pool.GetFree(fl))
      ensures relief.Borrowed? <==> old(pool.CanBorrow(fl))
      ensures old(table.Calm()) ==> table.Calm()
      ensures relief.Borrowed? ==>
        pool.GetFree(fl) == old(pool.GetFree(fl)) + SLOT_SIZE && table.Map() == old(table.Map())
      ensures relief.Evicted? ==> relief.key in old(table.Map()) && table.Map() == old(table.Map()) - {relief.key}
      ensures relief.Stalled? ==> table.Map() == old(table.Map()) && table.Exhausted(attempts)
      ensures relief.Stalled? ==> pool.GetFree(fl) == old(pool.GetFree(fl)) && NoneOffers(table.buckets[..], attempts)
      ensures forall a :: a in pool.out ==> a in old(pool.out) && pool.out[a] == old(pool.out)[a]
      ensures old(Accurate()) ==> Accurate()
      ensures old(Covered()) ==> Covered()
      ensures old(Covered()) ==>
        Contents() == if relief.Evicted? then WithoutKey(old(Contents()), Cid(relief.key), relief.key)
            else old(Contents())
    {
      hide LinearProbingApprox.Valid, LinearProbingApprox.Map, PerCPUPool.Valid, PerCPUPool.UsageExact,
        KV.FiltersValid, KV.Covers, KV.Room, KV.Contents, Backed, Loose, Honest, PerCPUPool.BestSpare,
        PerCPUPool.Lends, PerCPUPool.CanBorrow, LinearProbingApprox.Exhausted, LinearProbingApprox.Calm, NoneOffers;
      var addr, from := pool.AllocateFromPeer(fl);
      if addr.Some? {
        return Borrowed;
      }
      var ok, key := Evict(attempts);
      relief := if ok then Evicted(key) else Stalled;
    }

    /** One round of the background evictor for list fl: borrow a slot or, failing that, evict a page, until
        the list's free megabytes reach the threshold, the larger of the minimum and 5 per cent of the list's
        allocation at the start, or the round has evicted one page more than the threshold holds. The supply of tries
        for the n-th eviction is supply(n); the round stalls where the source would retry for ever. */
    method EvictorRound(fl: nat, supply: nat -> seq<Attempt>)
      returns (stalled: bool, evictCnt: nat, ghost borrows: nat, ghost gone: set<Key>)
      requires Valid() && fl < pool.lists.Length
      modifies table.buckets, pool`out, pool.allocs, pool.useds, pool.lists, filterRepr
      ensures Valid() && InHand() == old(InHand())
      ensures forall a :: a in pool.out ==> a in old(pool.out) && pool.out[a] == old(pool.out)[a]
      ensures gone <= old(table.Map()).Keys && |gone| == evictCnt && table.Map() == old(table.Map()) - gone
      ensures var t := old(pool.GetThldFree(fl));
        && evictCnt <= EvictLimit(t) + 1
        && (borrows == 0 || borrows * SLOT_SIZE + old(pool.GetFree(fl)) < t + SLOT_SIZE)
      ensures var t := old(pool.GetThldFree(fl));
        if stalled then pool.GetFree(fl) / MB < t / MB && table.Exhausted(supply(evictCnt))
        else pool.GetFree(fl) / MB >= t / MB || evictCnt > ToInt32(t / PAGE_SIZE)
      ensures var share := old(pool.allocs[fl]) * 5 / 100;
        var t := if share > pool.minFlFree then share else pool.minFlFree;
        share < 0x8000_0000 && t / PAGE_SIZE < 0x8000_0000 ==>
          && evictCnt <= t / PAGE_SIZE + 1
          && if stalled then SLOT_SIZE * |pool.lists[fl]| / MB < t / MB
             else SLOT_SIZE * |pool.lists[fl]| / MB >= t / MB || evictCnt == t / PAGE_SIZE + 1
      ensures stalled ==> NoneOffers(table.buckets[..], supply(evictCnt))
      ensures old(table.Calm()) ==> table.Calm()
      ensures old(Accurate()) ==> Accurate()
      ensures old(Covered()) ==> Covered() && Uncounted(old(Contents()), gone, Contents())
    {
      hide LinearProbingApprox.Valid, LinearProbingApprox.Map, PerCPUPool.Valid, PerCPUPool.UsageExact,
        KV.FiltersValid, KV.Covers, KV.Room, KV.Contents, Uncounted, WithoutKey, Backed, Loose, Honest,
        PerCPUPool.CanBorrow, PerCPUPool.Thld, LinearProbingApprox.Exhausted, LinearProbingApprox.Calm, NoneOffers,
        ToInt32;
      var thldFree := pool.GetThldFree(fl);
      var thldEvictCnt := ToInt32(thldFree / PAGE_SIZE);
      ghost var m: map<Key, Addr>, out, hand, free := table.Map(), pool.out, InHand(), pool.GetFree(fl);
      ghost var calm, accurate, covered, counted := table.Calm(), Accurate(), Covered(), Contents();
      evictCnt, borrows, gone := 0, 0, {};
      NothingUncounted(Contents());
      while thldFree / MB > pool.GetFree(fl) / MB
        invariant Valid() && InHand() == hand
        invariant forall a :: a in pool.out ==> a in out && pool.out[a] == out[a]
        invariant gone <= m.Keys && |gone| == evictCnt && table.Map() == m - gone
        invariant evictCnt <= EvictLimit(thldFree) && (calm ==> table.Calm())
        invariant borrows * SLOT_SIZE + free <= pool.GetFree(fl)
        invariant borrows == 0 || borrows * SLOT_SIZE + free < thldFree + SLOT_SIZE
        invariant accurate ==> Accurate()
        invariant covered ==> Covered() && Uncounted(counted, gone, Contents())
        decreases EvictLimit(thldFree) - evictCnt, thldFree - pool.GetFree(fl)
      {
        ghost var contents := Contents();
        var relief := EvictorStep(fl, supply(evictCnt));
        match relief {
          case Borrowed =>
            borrows := borrows + 1;
          case Evicted(key) =>
            if covered { UncountedNext(counted, gone, contents, key, Contents()); }
            gone := gone + {key};
            evictCnt := evictCnt + 1;
          case Stalled =>
            stalled := true;
            return;
        }
        if evictCnt > thldEvictCnt {
          break;
        }
      }
      stalled := false;
    }
  }
}
