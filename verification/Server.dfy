/** The request handlers: pages move between posted receives, the table and the pool, and no slot is
    ever in two places. Handlers are atomic; the exclusive policy removes a page as it is read. */
module Server {
  import opened Types
  import opened LongKey
  import opened ProbeTable
  import opened LinearProbing
  import opened SlotPool
  import opened KeyValue
  import opened CacheRuns

  /** A slot's memory: the page, and behind it the key. */
  datatype Cell = Cell(page: Page, key: Key)

  ghost predicate PostedAt(posted: Posts, u: Queue, i: int, a: Addr) {
    u in posted && 0 <= i < |posted[u]| && posted[u][i] == a && IsBuffer(a)
  }

  /** Posted buffers are slots in no list and no bucket, each posted once. */
  ghost predicate PostedApart(posted: Posts, hand: set<Addr>) {
    && (forall u, i, a :: PostedAt(posted, u, i, a) ==> a in hand)
    && (forall u, i, v, j, a :: PostedAt(posted, u, i, a) && PostedAt(posted, v, j, a) ==> u == v && i == j)
  }

  /** Every posted buffer was handed out to the queue's client. */
  ghost predicate PostedOwned(posted: Posts, out: map<Addr, nat>) {
    forall u, i, a :: PostedAt(posted, u, i, a) ==> a in out && out[a] == u.cid
  }

  ghost predicate IsPosted(posted: Posts, a: Addr) {
    exists u, i :: PostedAt(posted, u, i, a)
  }

  /** Slots in no list, no bucket and no posted receive. */
  ghost function Unplaced(posted: Posts, hand: set<Addr>): set<Addr> {
    set a | a in hand && !IsPosted(posted, a)
  }

  /** The oldest receive of a queue completes: its buffer is in the handler's hand. */
  lemma Consume(posted: Posts, hand: set<Addr>, out: map<Addr, nat>, u: Queue)
    requires PostedApart(posted, hand) && u in posted && posted[u] != []
    ensures var posted' := posted[u := posted[u][1..]]; var a := posted[u][0];
      && PostedApart(posted', hand) && !IsPosted(posted', a)
      && (PostedOwned(posted, out) ==> PostedOwned(posted', out) && (IsBuffer(a) ==> a in out && out[a] == u.cid))
    ensures IsBuffer(posted[u][0]) ==> posted[u][0] in hand
    ensures Unplaced(posted[u := posted[u][1..]], hand) == Unplaced(posted, hand) + Only(posted[u][0])
    ensures Unplaced(posted, hand) !! Only(posted[u][0])
  {
    var posted' := posted[u := posted[u][1..]];
    forall v, i, b | PostedAt(posted', v, i, b) ensures PostedAt(posted, v, if v == u then i + 1 else i, b) {}
    assert IsBuffer(posted[u][0]) ==> PostedAt(posted, u, 0, posted[u][0]);
    forall b ensures IsPosted(posted, b) <==> IsPosted(posted', b) || b in Only(posted[u][0]) {
      if IsPosted(posted, b) {
        var v, i :| PostedAt(posted, v, i, b);
        if v != u || i > 0 { assert PostedAt(posted', v, if v == u then i - 1 else i, b); }
      }
    }
  }

  lemma PostedMore(posted: Posts, u: Queue, a: Addr)
    requires u in posted
    ensures forall b :: IsPosted(posted[u := posted[u] + [a]], b) <==> IsPosted(posted, b) || b in Only(a)
  {
    var posted' := posted[u := posted[u] + [a]];
    forall b ensures IsPosted(posted', b) <==> IsPosted(posted, b) || b in Only(a) {
      if IsPosted(posted, b) {
        var v, i :| PostedAt(posted, v, i, b);
        assert PostedAt(posted', v, i, b);
      }
      if b in Only(a) { assert PostedAt(posted', u, |posted[u]|, b); }
      if IsPosted(posted', b) && b !in Only(a) {
        var v, i :| PostedAt(posted', v, i, b);
        assert PostedAt(posted, v, i, b);
      }
    }
  }

  /** A receive is posted, without a buffer or with one from the handler's hand, while slots outside the
      posted ones come and go. */
  lemma Post(posted: Posts, hand: set<Addr>, hand': set<Addr>, out: map<Addr, nat>, out': map<Addr, nat>, u: Queue,
             a: Addr)
    requires PostedApart(posted, hand) && u in posted
    requires forall b :: IsPosted(posted, b) ==> b in hand' && (b in out ==> b in out' && out'[b] == out[b])
    requires IsBuffer(a) ==> a in hand' && !IsPosted(posted, a)
    ensures var posted' := posted[u := posted[u] + [a]];
      && PostedApart(posted', hand')
      && (PostedOwned(posted, out) && (IsBuffer(a) ==> a in out' && out'[a] == u.cid) ==> PostedOwned(posted', out'))
      && Unplaced(posted', hand') == Unplaced(posted, hand') - Only(a)
  {
    var posted' := posted[u := posted[u] + [a]];
    PostedMore(posted, u, a);
    forall v, i, b | PostedAt(posted', v, i, b)
      ensures PostedAt(posted, v, i, b) || (v == u && i == |posted[u]| && b == a)
      ensures b in hand' && (PostedAt(posted, v, i, b) ==> IsPosted(posted, b))
    {
      if !(v == u && i == |posted[u]|) { assert PostedAt(posted, v, i, b); }
    }
  }

  /** Posting a slot from outside. */
  lemma PostFresh(posted: Posts, hand: set<Addr>, out: map<Addr, nat>, u: Queue, a: Addr)
    requires PostedApart(posted, hand) && u in posted && IsBuffer(a) && a !in hand && a !in out && hand <= out.Keys
    ensures var posted', out' := posted[u := posted[u] + [a]], out[a := u.cid];
      && PostedApart(posted', hand + {a}) && Unplaced(posted', hand + {a}) == Unplaced(posted, hand)
      && (PostedOwned(posted, out) ==> PostedOwned(posted', out'))
  {
    InHandStill(posted, hand);
    assert !IsPosted(posted, a);
    Post(posted, hand, hand + {a}, out, out[a := u.cid], u, a);
  }

  /** Posted buffers stay where they are while slots outside them come and go. */
  lemma Stay(posted: Posts, hand: set<Addr>, hand': set<Addr>, out: map<Addr, nat>, out': map<Addr, nat>)
    requires PostedApart(posted, hand)
    requires forall b :: IsPosted(posted, b) ==> b in hand' && (b in out ==> b in out' && out'[b] == out[b])
    ensures PostedApart(posted, hand')
    ensures PostedOwned(posted, out) ==> PostedOwned(posted, out')
  {
    forall u, i, b | PostedAt(posted, u, i, b) ensures IsPosted(posted, b) {}
  }

  /** A fresh slot is posted in place of the filled one, which goes to the table or to a free list. */
  lemma Swapped(rest: Posts, hand: set<Addr>, hand': set<Addr>, out: map<Addr, nat>, out': map<Addr, nat>, u: Queue,
                recvAddr: Addr, value: Addr)
    requires PostedApart(rest, hand) && u in rest && hand <= out.Keys && hand' <= out'.Keys && !IsPosted(rest, recvAddr)
    requires IsBuffer(value) && value !in out && hand' == hand + {value} - {recvAddr} && value != recvAddr
    requires forall b :: b in out' ==> b == value || (b in out && out'[b] == out[b])
    ensures PostedApart(rest[u := rest[u] + [value]], hand')
    ensures PostedOwned(rest, out) && out'[value] == u.cid ==> PostedOwned(rest[u := rest[u] + [value]], out')
    ensures Unplaced(rest[u := rest[u] + [value]], hand') == Unplaced(rest, hand) - {recvAddr}
  {
    assert forall b :: IsPosted(rest, b) ==> b in hand && b != recvAddr;
    Post(rest, hand, hand', out, out', u, value);
  }

  // ---- What the cache holds ----

  function Read(memory: map<Addr, Cell>, a: Addr): Cell {
    if a in memory then memory[a] else Cell([], 0)
  }

  /** The pages the table's slots hold. */
  ghost function Cached(m: map<Key, Addr>, memory: map<Addr, Cell>): map<Key, Page> {
    map k | k in m :: Read(memory, m[k]).page
  }

  /** Writing a slot that no key is stored in changes no cached page. */
  lemma WriteElsewhere(m: map<Key, Addr>, memory: map<Addr, Cell>, a: Addr, cell: Cell)
    requires forall k :: k in m ==> m[k] != a
    ensures Cached(m, memory[a := cell]) == Cached(m, memory)
  {
    assert forall k :: k in m ==> Read(memory[a := cell], m[k]) == Read(memory, m[k]);
  }

  lemma CachedWithout(m: map<Key, Addr>, memory: map<Addr, Cell>, gone: set<Key>)
    ensures Cached(m, memory).Keys == m.Keys && Cached(m - gone, memory) == Cached(m, memory) - gone
  {
  }

  /** The pair that went into the table, and the victim that made room. */
  lemma CachedPut(m: map<Key, Addr>, memory: map<Addr, Cell>, key: Key, a: Addr, victim: Option<Key>)
    ensures Cached(m, memory).Keys == m.Keys
    ensures Cached(m[key := a], memory) == Cached(m, memory)[key := Read(memory, a).page]
    ensures victim.Some? ==> Cached(m - {victim.value}, memory) == Cached(m, memory) - {victim.value}
  {
  }

  lemma CachedPages(m: map<Key, Addr>, memory: map<Addr, Cell>)
    ensures forall k :: k in m ==> Cached(m, memory)[k] == Read(memory, m[k]).page
  {
  }

  // ---- Where slots are ----

  /** Where a slot can be: a position of a free list, a bucket, a position of a receive queue. */
  datatype Place = OnList(f: nat, i: nat) | InBucket(s: nat) | OnQueue(u: Queue, k: nat)

  lemma FindOnList(lists: seq<seq<Addr>>, chunks: set<Addr>, out: map<Addr, nat>, a: Addr) returns (p: Place)
    requires Accounted(chunks, out, lists) && a in chunks && a !in out
    ensures p.OnList? && p.f < |lists| && p.i < |lists[p.f]| && lists[p.f][p.i] == a
  {
    var f: nat :| f < |lists| && a in lists[f];
    var i: nat :| i < |lists[f]| && lists[f][i] == a;
    p := OnList(f, i);
  }

  lemma ListsApart(lists: seq<seq<Addr>>, f: nat, i: nat, g: nat, j: nat)
    requires Separate(lists) && f < |lists| && g < |lists| && i < |lists[f]| && j < |lists[g]|
    requires lists[f][i] == lists[g][j]
    ensures f == g && i == j
  {
    assert lists[f][i] in lists[f] && lists[g][j] in lists[g];
    assert Distinct(lists[f]);
  }

  lemma BucketsApart(bs: seq<Bucket>, hash: Hash, out: map<Addr, nat>, n: nat, s: nat, t: nat)
    requires WellFormed(bs, hash) && Backed(View(bs), out, n)
    requires s < |bs| && t < |bs| && !Vacant(bs[s]) && !Vacant(bs[t]) && bs[s].value == bs[t].value
    ensures s == t
  {
    ViewAt(bs, s);
    ViewAt(bs, t);
  }

  lemma QueuesApart(posted: Posts, hand: set<Addr>, u: Queue, i: nat, v: Queue, j: nat, a: Addr)
    requires PostedApart(posted, hand) && PostedAt(posted, u, i, a) && PostedAt(posted, v, j, a)
    ensures u == v && i == j
  {
  }

  lemma InHandStill(posted: Posts, hand: set<Addr>)
    requires PostedApart(posted, hand)
    ensures forall b :: IsPosted(posted, b) ==> b in hand
  {
  }

  // ---- The server ----

  class Server {
    const kv: KV
    var posted: Posts
    var memory: map<Addr, Cell>

    /** Every slot is in at most one place; under the exclusive policy no entry is ever marked busy. */
    ghost predicate Valid()
      reads this, kv, kv.table, kv.table.buckets, kv.pool, kv.pool.allocs, kv.pool.useds, kv.pool.lists, kv.filterRepr
    {
      && this !in kv.filterRepr && kv.Valid() && kv.table.Calm()
      && PostedApart(posted, kv.InHand())
      && (forall u :: u in posted <==> u.cid < kv.pool.numClients && u.qid < kv.pool.perCli)
    }

    ghost function Cache(): map<Key, Page>
      requires kv.table.Valid()
      reads this, kv, kv.table, kv.table.buckets
    {
      Cached(kv.table.Map(), memory)
    }

    /** The slots the daemon has lost track of: on no list, in no bucket, in no posted receive. */
    ghost function Lost(): set<Addr>
      requires kv.table.Valid()
      reads this, kv, kv.table, kv.table.buckets, kv.pool
    {
      Unplaced(posted, kv.InHand())
    }

    /** Usage per client is exact: keys and posted buffers carry the client they belong to. */
    ghost predicate Accurate()
      requires kv.table.Valid()
      reads this, kv, kv.table, kv.table.buckets, kv.pool, kv.pool.useds
    {
      kv.Accurate() && PostedOwned(posted, kv.pool.out)
    }

    ghost function Snapshot(): Snap
      requires Valid()
      reads this, kv, kv.table, kv.table.buckets, kv.pool, kv.pool.allocs, kv.pool.useds, kv.pool.lists, kv.filterRepr
    {
      Snap(Cache(), posted, Lost(), kv.table.buckets[..], kv.pool.allocs[..], kv.pool.useds[..], kv.pool.lists[..],
           kv.Contents(), kv.Covered(), Accurate())
    }

    constructor (kv: KV)
      requires kv.Valid() && kv.table.Map() == map[] && kv.table.Calm()
      ensures Valid() && this.kv == kv && Cache() == map[]
      ensures forall u :: u in posted ==> posted[u] == []
      ensures kv.Accurate() ==> Accurate()
      ensures kv.pool.out == map[] ==> Lost() == {}
    {
      this.kv := kv;
      this.posted := map c, q | 0 <= c < kv.pool.numClients && 0 <= q < kv.pool.perCli :: Queue(c, q) := [];
      this.memory := map[];
    }

    /** The receives posted as a queue connects: with slots while the lists they may come from have any, and
        then with the address of none. */
    method PrePostRecvs(u: Queue, n: nat) returns (ghost mine: seq<Addr>, got: nat)
      requires Valid() && u in posted
      modifies this`posted, kv.pool`out, kv.pool.useds, kv.pool.lists
      ensures Valid() && Cache() == old(Cache()) && Lost() == old(Lost())
      ensures posted == old(posted)[u := old(posted)[u] + mine] && |mine| == n && got <= n
      ensures forall i :: 0 <= i < n ==> if i < got then IsBuffer(mine[i]) else mine[i] == BAD
      ensures got < n ==> kv.pool.Starved(u.cid, u.qid)
      ensures |kv.pool.out| == old(|kv.pool.out|) + got
      ensures old(Accurate()) ==> Accurate()
      ensures old(kv.Covered()) ==> kv.Covered()
      ensures kv.Contents() == old(kv.Contents())
    {
      hide LinearProbingApprox.Valid, LinearProbingApprox.Map, PerCPUPool.Valid, PerCPUPool.UsageExact,
        KV.FiltersValid, KV.InHand, KV.Accurate, KV.Covered, KV.Room, KV.Contents, Backed, LinearProbingApprox.Calm,
        PostedApart, PostedOwned, IsPosted, Unplaced, PerCPUPool.Starved;
      mine, got := [], 0;
      assert old(posted)[u] + [] == old(posted)[u];
      for i := 0 to n
        invariant Valid() && Cache() == old(Cache()) && Lost() == old(Lost())
        invariant posted == old(posted)[u := old(posted)[u] + mine] && |mine| == i && got <= i
        invariant forall k :: 0 <= k < i ==> if k < got then IsBuffer(mine[k]) else mine[k] == BAD
        invariant got < i ==> kv.pool.Starved(u.cid, u.qid)
        invariant |kv.pool.out| == old(|kv.pool.out|) + got
        invariant old(Accurate()) ==> Accurate()
        invariant old(kv.Covered()) ==> kv.Covered()
        invariant kv.Contents() == old(kv.Contents())
      {
        var a := PostNew(u);
        assert old(posted)[u] + mine + [a] == old(posted)[u] + (mine + [a]);
        mine := mine + [a];
        if a != BAD { got := got + 1; }
      }
    }

    /** One receive posted with a new slot, or with the address of none. */
    method PostNew(u: Queue) returns (a: Addr)
      requires Valid() && u in posted
      modifies this`posted, kv.pool`out, kv.pool.useds, kv.pool.lists
      ensures Valid() && Cache() == old(Cache()) && Lost() == old(Lost())
      ensures posted == old(posted)[u := old(posted)[u] + [a]] && a != NONE
      ensures a == BAD <==> old(kv.pool.Starved(u.cid, u.qid))
      ensures old(kv.pool.Starved(u.cid, u.qid)) ==> kv.pool.Starved(u.cid, u.qid)
      ensures |kv.pool.out| == old(|kv.pool.out|) + if a == BAD then 0 else 1
      ensures old(Accurate()) ==> Accurate()
      ensures old(kv.Covered()) ==> kv.Covered()
      ensures kv.Contents() == old(kv.Contents())
    {
      hide LinearProbingApprox.Valid, LinearProbingApprox.Map, PerCPUPool.Valid, PerCPUPool.UsageExact,
        KV.FiltersValid, KV.InHand, KV.Accurate, KV.Covered, KV.Room, KV.Contents, Backed, LinearProbingApprox.Calm,
        PostedApart, PostedOwned, IsPosted, Unplaced, PerCPUPool.Starved;
      ghost var hand, out := kv.InHand(), kv.pool.out;
      kv.HandFacts();
      InHandStill(posted, hand);
      var value := kv.Allocate(u.cid, u.qid);
      if value.Some? {
        a := value.value;
        PostFresh(posted, hand, out, u, a);
      } else {
        a := BAD;
        Post(posted, hand, hand, out, out, u, a);
      }
      posted := posted[u := posted[u] + [a]];
    }

    /** The put handler, with the filled buffer in hand: a fresh slot is posted in its stead and the filled
        one inserted; with no slot free, the same buffer is posted again and the page dropped. */
    method ProcessPut(u: Queue, recvAddr: Addr, drawn: nat) returns (dropped: bool, ghost victim: Option<Key>)
      requires Valid() && u in posted && IsBuffer(recvAddr) && recvAddr in kv.InHand() && !IsPosted(posted, recvAddr)
      requires var key := Read(memory, recvAddr).key; Storable(key) && Cid(key) < kv.pool.numClients
      requires drawn < kv.pool.perCli
      modifies this`posted, kv.table.buckets, kv.pool`out, kv.pool.useds, kv.pool.lists, kv.filterRepr
      ensures Valid() && Lost() == old(Lost()) - {recvAddr}
      ensures dropped <==> old(kv.pool.Starved(u.cid, drawn))
      ensures dropped ==> posted == old(posted)[u := old(posted)[u] + [recvAddr]] && victim.None?
      ensures dropped ==> kv.table.buckets[..] == old(kv.table.buckets[..]) && kv.table.Map() == old(kv.table.Map())
      ensures dropped ==> kv.pool.useds[..] == old(kv.pool.useds[..]) && kv.pool.lists[..] == old(kv.pool.lists[..])
      ensures dropped ==> kv.Contents() == old(kv.Contents())
      ensures !dropped ==> |posted[u]| == |old(posted)[u]| + 1 && IsBuffer(posted[u][|old(posted)[u]|])
      ensures !dropped ==> posted == old(posted)[u := old(posted)[u] + [posted[u][|old(posted)[u]|]]]
      ensures !dropped ==> var m := old(kv.table.Map());
        kv.table.Map() == (if victim.None? then m else m - {victim.value})[Read(memory, recvAddr).key := recvAddr]
      ensures victim.Some? ==> Read(memory, recvAddr).key !in old(kv.table.Map()) && victim.value in old(kv.table.Map())
      ensures victim.Some? ==>
        MadeRoom(old(kv.table.buckets[..]), kv.table.hash, Read(memory, recvAddr).key, victim.value)
      ensures old(Accurate()) && Cid(Read(memory, recvAddr).key) == u.cid == old(kv.pool.out)[recvAddr] ==> Accurate()
      ensures var key := Read(memory, recvAddr).key;
        old(kv.Covered()) && Cid(key) == u.cid && (dropped || old(kv.Room(u.cid, key))) ==> kv.Covered()
      ensures old(kv.Covered()) && !dropped ==>
        kv.Contents() == Recounted(old(kv.Contents()), u.cid, Read(memory, recvAddr).key, true, victim)
    {
      hide LinearProbingApprox.Valid, LinearProbingApprox.Map, PerCPUPool.Valid, PerCPUPool.UsageExact,
        KV.FiltersValid, KV.InHand, KV.Accurate, KV.Covered, KV.Room, KV.Contents, Backed, PostedApart, PostedOwned,
        IsPosted, Unplaced, LinearProbingApprox.Calm, Chosen, PerCPUPool.Starved, Recounted, Settled;
      ghost var hand, out, rest, m: map<Key, Addr> := kv.InHand(), kv.pool.out, posted, kv.table.Map();
      kv.HandFacts();
      var key := Read(memory, recvAddr).key;
      var value := kv.Allocate(u.cid, drawn);
      if value.None? {
        InHandStill(rest, hand);
        Post(rest, hand, hand, out, out, u, recvAddr);
        posted := posted[u := posted[u] + [recvAddr]];
        dropped, victim := true, None;
      } else {
        posted := posted[u := posted[u] + [value.value]];
        ghost var passes, stored;
        passes, stored, victim := kv.Insert(key, recvAddr, u.cid);
        kv.HandFacts();
        Swapped(rest, hand, kv.InHand(), out, kv.pool.out, u, recvAddr, value.value);
        dropped := false;
      }
    }

    /** The lists a put would try are the one drawn and those after it in the client's ring, half of the ring. */
    lemma TriedLists(cid: nat, drawn: nat)
      requires kv.Valid() && cid < kv.pool.numClients && drawn < kv.pool.perCli
      ensures kv.pool.lists.Length == kv.pool.numClients * kv.pool.perCli
      ensures var n, own := kv.pool.perCli, kv.pool.ListsOf(kv.pool.lists[..], cid);
        kv.pool.Starved(cid, drawn) <==>
          forall p: nat :: p < n && (p == drawn || (p + n - drawn) % n < n / 2) ==> own[p] == []
    {
      hide LinearProbingApprox.Valid, LinearProbingApprox.Map, KV.FiltersValid, Backed, Balanced, Separate, Accounted;
      assert kv.pool.lists.Length == kv.pool.numClients * kv.pool.perCli;
      kv.pool.StarvedMeans(kv.pool.lists[..], cid, drawn);
      hide PerCPUPool.StarvedIn, PerCPUPool.ListsOf, PerCPUPool.Valid;
    }

    /** The network card fills the buffer at the head of the receive queue, which is then in the handler's hand. */
    method FillHead(u: Queue, page: Page, key: Key) returns (recvAddr: Addr)
      requires Valid() && u in posted && posted[u] != [] && IsBuffer(posted[u][0])
      modifies this`posted, this`memory
      ensures Valid() && recvAddr == old(posted)[u][0] && posted == old(posted)[u := old(posted)[u][1..]]
      ensures recvAddr in kv.InHand() && !IsPosted(posted, recvAddr) && Lost() == old(Lost()) + {recvAddr}
      ensures recvAddr !in old(Lost())
      ensures memory == old(memory)[recvAddr := Cell(page, key)] && Read(memory, recvAddr) == Cell(page, key)
      ensures Cache() == old(Cache())
      ensures old(Accurate()) ==> Accurate() && recvAddr in kv.pool.out && kv.pool.out[recvAddr] == u.cid
      ensures kv.Covered() == old(kv.Covered()) && kv.Contents() == old(kv.Contents())
      ensures kv.Room(u.cid, key) == old(kv.Room(u.cid, key))
    {
      hide KV.FiltersValid, Backed, PerCPUPool.Valid, LinearProbingApprox.Valid, LinearProbingApprox.Map, KV.InHand,
        KV.Accurate, KV.Covered, KV.Room, KV.Contents, PostedApart, PostedOwned, IsPosted, Unplaced, Cached,
        LinearProbingApprox.Calm;
      Consume(posted, kv.InHand(), kv.pool.out, u);
      kv.HandFacts();
      recvAddr := posted[u][0];
      posted := posted[u := posted[u][1..]];
      WriteElsewhere(kv.table.Map(), memory, recvAddr, Cell(page, key));
      memory := memory[recvAddr := Cell(page, key)];
    }

    /** A put arrives: the network card fills the buffer at the head of the receive queue, and the handler
        runs. The cache gains the page, possibly losing the victim of a full window, unless the lists tried are
        empty and the page is dropped. */
    method ReceivePut(u: Queue, page: Page, key: Key, drawn: nat) returns (dropped: bool, ghost victim: Option<Key>)
      requires Valid() && u in posted && posted[u] != [] && IsBuffer(posted[u][0])
      requires Storable(key) && Cid(key) < kv.pool.numClients && drawn < kv.pool.perCli
      modifies this`posted, this`memory, kv.table.buckets, kv.pool`out, kv.pool.useds, kv.pool.lists, kv.filterRepr
      ensures Valid() && Lost() == old(Lost())
      ensures dropped <==> old(kv.pool.Starved(u.cid, drawn))
      ensures var n, own := kv.pool.perCli, kv.pool.ListsOf(old(kv.pool.lists[..]), u.cid);
        dropped <==> forall p: nat :: p < n && (p == drawn || (p + n - drawn) % n < n / 2) ==> own[p] == []
      ensures dropped ==> posted == Turned(old(posted), u, old(posted)[u][0]) && Cache() == old(Cache()) && victim.None?
      ensures dropped ==> kv.table.buckets[..] == old(kv.table.buckets[..]) && kv.Contents() == old(kv.Contents())
      ensures dropped ==> kv.pool.useds[..] == old(kv.pool.useds[..]) && kv.pool.lists[..] == old(kv.pool.lists[..])
      ensures |posted[u]| == |old(posted)[u]|
      ensures !dropped ==>
        var next := posted[u][|posted[u]| - 1]; IsBuffer(next) && posted == Turned(old(posted), u, next)
      ensures !dropped ==>
        Cache() == (if victim.None? then old(Cache()) else old(Cache()) - {victim.value})[key := page]
      ensures victim.Some? ==> key !in old(Cache()) && victim.value in old(Cache())
      ensures victim.Some? ==> MadeRoom(old(kv.table.buckets[..]), kv.table.hash, key, victim.value)
      ensures old(Accurate()) && Cid(key) == u.cid ==> Accurate()
      ensures old(kv.Covered()) && Cid(key) == u.cid && (dropped || old(kv.Room(u.cid, key))) ==> kv.Covered()
      ensures old(kv.Covered()) && !dropped ==> kv.Contents() == Recounted(old(kv.Contents()), u.cid, key, true, victim)
    {
      hide KV.FiltersValid, Backed, PerCPUPool.Valid, LinearProbingApprox.Valid, LinearProbingApprox.Map, KV.InHand,
        KV.Accurate, KV.Covered, KV.Room, KV.Contents, PostedApart, PostedOwned, IsPosted, Unplaced, Cached,
        LinearProbingApprox.Calm, MadeRoom, Recounted;
      ghost var m: map<Key, Addr> := kv.table.Map();
      TriedLists(u.cid, drawn);
      hide PerCPUPool.Starved, PerCPUPool.ListsOf, Read, Only, KV.Valid;
      var recvAddr := FillHead(u, page, key);
      dropped, victim := ProcessPut(u, recvAddr, drawn);
      CachedPut(m, memory, key, recvAddr, victim);
      CachedPut(if victim.None? then m else m - {victim.value}, memory, key, recvAddr, None);
    }

    /** What the get and invalidation handlers share: the key's pair leaves the table, and its slot, briefly
        in the handler's hand, goes to a free list of the client. */
    method Take(u: Queue, key: Key) returns (page: Option<Page>)
      requires Valid() && u in posted && Storable(key)
      modifies kv.table.buckets, kv.pool`out, kv.pool.useds, kv.pool.lists, kv.filterRepr
      ensures Valid() && kv.table.Map() == old(kv.table.Map()) - {key} && Lost() == old(Lost())
      ensures page == if key in old(kv.table.Map()) then Some(Read(memory, old(kv.table.Map())[key]).page) else None
      ensures old(Accurate()) && Cid(key) == u.cid ==> Accurate()
      ensures old(kv.Covered()) && Cid(key) == u.cid ==> kv.Covered()
      ensures old(kv.Covered()) && Cid(key) == u.cid ==>
        kv.Contents() == if page.Some? then WithoutKey(old(kv.Contents()), u.cid, key) else old(kv.Contents())
    {
      hide LinearProbingApprox.Valid, LinearProbingApprox.Map, PerCPUPool.Valid, PerCPUPool.UsageExact,
        KV.FiltersValid, KV.InHand, KV.Accurate, KV.Covered, KV.Contents, Backed, LinearProbingApprox.Calm,
        PostedApart, PostedOwned, IsPosted, Unplaced, WithoutKey;
      ghost var hand, out := kv.InHand(), kv.pool.out;
      kv.HandFacts();
      InHandStill(posted, hand);
      var value := kv.Remove(key, u.cid);
      page := None;
      if value != NONE {
        page := Some(Read(memory, value).page);
        kv.Free(value, u.cid);
      }
      kv.HandFacts();
      Stay(posted, hand, kv.InHand(), out, kv.pool.out);
    }

    /** A get or an invalidation arrives: the head receive is consumed, its buffer, if any, dropped, and one
        without a buffer posted. */
    method ConsumeRecv(u: Queue)
      requires Valid() && u in posted && posted[u] != []
      modifies this`posted
      ensures Valid() && posted == Turned(old(posted), u, NONE)
      ensures Lost() == old(Lost()) + Only(old(posted)[u][0]) && old(Lost()) !! Only(old(posted)[u][0])
      ensures old(Accurate()) ==> Accurate()
    {
      hide LinearProbingApprox.Valid, LinearProbingApprox.Map, PerCPUPool.Valid, PerCPUPool.UsageExact,
        KV.FiltersValid, KV.InHand, KV.Accurate, KV.Covered, Backed, LinearProbingApprox.Calm, PostedApart,
        PostedOwned, IsPosted, Unplaced;
      ghost var hand, out := kv.InHand(), kv.pool.out;
      Consume(posted, hand, out, u);
      posted := posted[u := posted[u][1..]];
      InHandStill(posted, hand);
      Post(posted, hand, hand, out, out, u, NONE);
      posted := posted[u := posted[u] + [NONE]];
    }

    /** The page comes back and leaves the cache. */
    method ReceiveGet(u: Queue, key: Key) returns (page: Option<Page>)
      requires Valid() && u in posted && posted[u] != [] && Storable(key)
      modifies this`posted, kv.table.buckets, kv.pool`out, kv.pool.useds, kv.pool.lists, kv.filterRepr
      ensures Valid() && page == Lookup(old(Cache()), key) && Cache() == old(Cache()) - {key}
      ensures posted == Turned(old(posted), u, NONE)
      ensures Lost() == old(Lost()) + Only(old(posted)[u][0]) && old(Lost()) !! Only(old(posted)[u][0])
      ensures old(Accurate()) && Cid(key) == u.cid ==> Accurate()
      ensures old(kv.Covered()) && Cid(key) == u.cid ==> kv.Covered()
      ensures old(kv.Covered()) && Cid(key) == u.cid ==>
        kv.Contents() == if page.Some? then WithoutKey(old(kv.Contents()), u.cid, key) else old(kv.Contents())
    {
      hide KV.FiltersValid, Backed, PerCPUPool.Valid, LinearProbingApprox.Valid, LinearProbingApprox.Map, KV.InHand,
        KV.Accurate, KV.Covered, KV.Contents, PostedApart, PostedOwned, IsPosted, Unplaced, Cached, WithoutKey;
      ghost var m: map<Key, Addr> := kv.table.Map();
      ConsumeRecv(u);
      page := Take(u, key);
      CachedPut(m, memory, key, NONE, Some(key));
      CachedPages(m, memory);
    }

    method ReceiveInvalidate(u: Queue, key: Key) returns (committed: bool)
      requires Valid() && u in posted && posted[u] != [] && Storable(key)
      modifies this`posted, kv.table.buckets, kv.pool`out, kv.pool.useds, kv.pool.lists, kv.filterRepr
      ensures Valid() && committed == (key in old(Cache())) && Cache() == old(Cache()) - {key}
      ensures posted == Turned(old(posted), u, NONE)
      ensures Lost() == old(Lost()) + Only(old(posted)[u][0]) && old(Lost()) !! Only(old(posted)[u][0])
      ensures old(Accurate()) && Cid(key) == u.cid ==> Accurate()
      ensures old(kv.Covered()) && Cid(key) == u.cid ==> kv.Covered()
      ensures old(kv.Covered()) && Cid(key) == u.cid ==>
        kv.Contents() == if committed then WithoutKey(old(kv.Contents()), u.cid, key) else old(kv.Contents())
    {
      hide KV.FiltersValid, Backed, PerCPUPool.Valid, LinearProbingApprox.Valid, LinearProbingApprox.Map, KV.InHand,
        KV.Accurate, KV.Covered, KV.Contents, PostedApart, PostedOwned, IsPosted, Unplaced, Cached, WithoutKey;
      ghost var m: map<Key, Addr> := kv.table.Map();
      ConsumeRecv(u);
      var page := Take(u, key);
      committed := page.Some?;
      CachedPut(m, memory, key, NONE, Some(key));
    }

    /** An evictor's round takes pages out of the cache, changes none and no posted buffer, and ends with the
        list's free memory at its threshold, the evictions used up, or nothing left to evict. */
    method Round(fl: nat, supply: nat -> seq<Attempt>) returns (stalled: bool, evictCnt: nat, ghost gone: set<Key>)
      requires Valid() && fl < kv.pool.lists.Length
      modifies kv.table.buckets, kv.pool`out, kv.pool.allocs, kv.pool.useds, kv.pool.lists, kv.filterRepr
      ensures Valid() && Lost() == old(Lost()) && gone <= old(Cache()).Keys && |gone| == evictCnt
      ensures Cache() == old(Cache()) - gone
      ensures var t := old(kv.pool.GetThldFree(fl));
        evictCnt <= EvictLimit(t) + 1 &&
        if stalled then kv.pool.GetFree(fl) / MB < t / MB && kv.table.Exhausted(supply(evictCnt))
        else kv.pool.GetFree(fl) / MB >= t / MB || evictCnt > ToInt32(t / PAGE_SIZE)
      ensures old(Accurate()) ==> Accurate()
      ensures old(kv.Covered()) ==> kv.Covered() && Uncounted(old(kv.Contents()), gone, kv.Contents())
    {
      hide LinearProbingApprox.Valid, LinearProbingApprox.Map, PerCPUPool.Valid, PerCPUPool.UsageExact,
        KV.FiltersValid, KV.InHand, KV.Accurate, KV.Covered, KV.Contents, Backed, LinearProbingApprox.Calm,
        PostedApart, PostedOwned, IsPosted, Unplaced, LinearProbingApprox.Exhausted, PerCPUPool.Thld, Cached,
        Uncounted;
      ghost var hand, out, m: map<Key, Addr> := kv.InHand(), kv.pool.out, kv.table.Map();
      ghost var borrows;
      stalled, evictCnt, borrows, gone := kv.EvictorRound(fl, supply);
      InHandStill(posted, hand);
      kv.HandFacts();
      Stay(posted, hand, kv.InHand(), out, kv.pool.out);
      CachedWithout(m, memory, gone);
    }

    // ---- No slot is in two places ----

    ghost predicate Holds(p: Place, a: Addr)
      reads this, kv, kv.table, kv.table.buckets, kv.pool, kv.pool.lists
    {
      match p
      case OnList(f, i) => f < kv.pool.lists.Length && i < |kv.pool.lists[f]| && kv.pool.lists[f][i] == a
      case InBucket(s) => s < kv.table.buckets.Length && !Vacant(kv.table.buckets[s]) && kv.table.buckets[s].value == a
      case OnQueue(u, i) => PostedAt(posted, u, i, a)
    }

    lemma {:induction false} NoAliasing(a: Addr, p: Place, q: Place)
      requires Valid() && Holds(p, a) && Holds(q, a)
      ensures p == q
    {
      hide KV.InHand, Backed, Separate, PostedApart, WellFormed, Unique;
      WhereHeld(a, p);
      WhereHeld(a, q);
      kv.HandFacts();
      match (p, q)
      case (OnList(f, i), OnList(g, j)) => ListsApart(kv.pool.lists[..], f, i, g, j);
      case (InBucket(s), InBucket(t)) => BucketsApart(kv.table.buckets[..], kv.table.hash, kv.pool.out,
          kv.pool.numClients, s, t);
      case (OnQueue(u, i), OnQueue(v, j)) => QueuesApart(posted, kv.InHand(), u, i, v, j, a);
      case _ =>
    }

    /** Every slot of the pool not lost is in some place, hence in exactly one. */
    lemma {:induction false} SomewhereUnlessLost(a: Addr) returns (p: Place)
      requires Valid() && a in kv.pool.chunks && a !in Lost()
      ensures Holds(p, a)
    {
      if a !in kv.pool.out {
        p := FindOnList(kv.pool.lists[..], kv.pool.chunks, kv.pool.out, a);
      } else if Stores(kv.table.Map(), a) {
        var k :| k in kv.table.Map() && kv.table.Map()[k] == a;
        p := InBucket(SlotOf(kv.table.buckets[..], k));
      } else {
        var u, i :| PostedAt(posted, u, i, a);
        p := OnQueue(u, i);
      }
    }

    /** A slot in a handler's hand is in none of the other places. */
    lemma {:induction false} HandIsApart(a: Addr, p: Place)
      requires Valid() && a in kv.InHand() && !IsPosted(posted, a)
      ensures !Holds(p, a)
    {
      kv.HandFacts();
      if Holds(p, a) && !p.OnQueue? { WhereHeld(a, p); }
    }

    lemma {:induction false} WhereHeld(a: Addr, p: Place)
      requires Valid() && Holds(p, a)
      ensures match p
        case OnList(f, i) => a !in kv.pool.out && a in kv.pool.lists[..][f]
        case InBucket(s) => a in kv.pool.out && a !in kv.InHand()
        case OnQueue(u, i) => a in kv.InHand()
    {
      match p
      case OnList(f, i) =>
        assert kv.pool.lists[f] == kv.pool.lists[..][f];
        assert Accounted(kv.pool.chunks, kv.pool.out, kv.pool.lists[..]);
      case InBucket(s) =>
        ViewAt(kv.table.buckets[..], s);
        kv.HandFacts();
      case OnQueue(u, i) =>
    }

    // ---- Runs ----

    method ServePut(r: Request) returns (reply: Reply)
      requires Valid() && r.Put? && Storable(r.key) && Cid(r.key) < kv.pool.numClients && r.drawn < kv.pool.perCli
      modifies this, kv.table.buckets, kv.pool`out, kv.pool.useds, kv.pool.lists, kv.filterRepr
      ensures Valid() && Stepped(kv, old(Snapshot()), r, reply, Snapshot())
    {
      hide KV.FiltersValid, Backed, PerCPUPool.Valid, LinearProbingApprox.Valid, LinearProbingApprox.Map, KV.InHand,
        KV.Accurate, KV.Covered, KV.Contents, KV.Room, KV.RoomIn, PostedApart, PostedOwned, IsPosted, Unplaced,
        Cached, Server.Accurate, PerCPUPool.StarvedIn, MadeRoom, Recounted, LinearProbingApprox.Calm;
      ghost var s := Snapshot();
      if Ready(posted, r) {
        if kv.Covered() { kv.CoveredRoom(r.u.cid, r.key); }
        var dropped, victim := ReceivePut(r.u, r.page, r.key, r.drawn);
        reply := if dropped then Dropped else Stored;
        if !dropped {
          assert StoredBy(kv, s, r, Snapshot(), posted[r.u][|posted[r.u]| - 1], victim);
        }
      } else {
        reply := Unserved;
      }
    }

    method ServeTake(r: Request) returns (reply: Reply)
      requires Valid() && (r.Get? || r.Invalidate?) && Storable(r.key)
      modifies this, kv.table.buckets, kv.pool`out, kv.pool.useds, kv.pool.lists, kv.filterRepr
      ensures Valid() && Stepped(kv, old(Snapshot()), r, reply, Snapshot())
    {
      hide KV.FiltersValid, Backed, PerCPUPool.Valid, LinearProbingApprox.Valid, LinearProbingApprox.Map, KV.InHand,
        KV.Accurate, KV.Covered, KV.Contents, KV.RoomIn, PostedApart, PostedOwned, IsPosted, Unplaced, Cached,
        Server.Accurate, WithoutKey, LinearProbingApprox.Calm;
      if !Ready(posted, r) {
        reply := Unserved;
      } else if r.Get? {
        var page := ReceiveGet(r.u, r.key);
        reply := Returned(page);
      } else {
        var committed := ReceiveInvalidate(r.u, r.key);
        reply := Invalidated(committed);
      }
    }

    lemma ListWords(fl: nat)
      requires Valid() && fl < kv.pool.lists.Length
      ensures FreeOf(Snapshot(), fl) == kv.pool.GetFree(fl) && ThldOf(kv, Snapshot(), fl) == kv.pool.GetThldFree(fl)
    {
      hide KV.FiltersValid, Backed, LinearProbingApprox.Valid, LinearProbingApprox.Map, KV.InHand, KV.Accurate,
        KV.Covered, KV.Contents, PerCPUPool.Thld, Unplaced, Cached, Separate, Accounted, PostedApart;
    }

    method ServeRound(r: Request) returns (reply: Reply)
      requires Valid() && r.Evict?
      modifies kv.table.buckets, kv.pool`out, kv.pool.allocs, kv.pool.useds, kv.pool.lists, kv.filterRepr
      ensures Valid() && Stepped(kv, old(Snapshot()), r, reply, Snapshot())
    {
      hide KV.FiltersValid, Backed, PerCPUPool.Valid, LinearProbingApprox.Map, KV.InHand, KV.Accurate, KV.Covered,
        KV.Contents, KV.RoomIn, PostedApart, PostedOwned, IsPosted, Unplaced, Cached, Server.Accurate, Uncounted,
        LinearProbingApprox.Calm, SearchFrom, PerCPUPool.Thld;
      ghost var s := Snapshot();
      if r.fl < kv.pool.lists.Length {
        ListWords(r.fl);
        var stalled, evictCnt, gone := Round(r.fl, (n: nat) => Supply(r.supply, n));
        reply := RoundOver(stalled, evictCnt);
        ListWords(r.fl);
        assert stalled ==> NoneFound(Snapshot().bs, Supply(r.supply, evictCnt));
        assert RoundBy(kv, s, r, reply, Snapshot(), gone);
      } else {
        reply := Unserved;
      }
    }

    method ServeOne(r: Request) returns (reply: Reply)
      requires Valid() && WellFormedRequest(r)
      modifies this, kv.table.buckets, kv.pool`out, kv.pool.allocs, kv.pool.useds, kv.pool.lists, kv.filterRepr
      ensures Valid() && Stepped(kv, old(Snapshot()), r, reply, Snapshot())
    {
      hide Server.Valid, Server.Snapshot, Stepped;
      match r
      case Put(_, _, _, _) => reply := ServePut(r);
      case Get(_, _) => reply := ServeTake(r);
      case Invalidate(_, _) => reply := ServeTake(r);
      case Evict(_, _) => reply := ServeRound(r);
    }

    /** The key names a client and is not reserved by the table, and the queue drawn is one of the client's. */
    ghost predicate WellFormedRequest(r: Request) {
      && (!r.Evict? ==> Storable(r.key) && Cid(r.key) < kv.pool.numClients)
      && (r.Put? ==> r.drawn < kv.pool.perCli)
    }

    /** No counter of any client's filter would overflow by counting the keys of all the client's puts. */
    ghost predicate HasRoomFor(requests: seq<Request>)
      requires Valid()
      reads this, kv, kv.table, kv.table.buckets, kv.pool, kv.pool.allocs, kv.pool.useds, kv.pool.lists, kv.filterRepr
    {
      forall c: nat :: c < |kv.cbfs| ==> kv.Fits(c, PutKeys(requests, c))
    }

    lemma RoomAtStart(requests: seq<Request>)
      requires Valid()
      ensures Snapshot().posted == posted && Snapshot().covered == kv.Covered() && Snapshot().accurate == Accurate()
      ensures kv.Covered() && HasRoomFor(requests) ==>
        forall c: nat :: c < |Snapshot().contents| ==> kv.FitsIn(c, Snapshot().contents[c] + PutKeys(requests, c))
    {
      hide KV.Fits, KV.FitsIn, LinearProbingApprox.Valid, LinearProbingApprox.Map, PerCPUPool.Valid;
      forall c: nat | c < |kv.Contents()| && kv.Covered() && HasRoomFor(requests)
        ensures kv.FitsIn(c, kv.Contents()[c] + PutKeys(requests, c))
      {
        kv.FitsIs(c, PutKeys(requests, c));
      }
    }

    lemma SnapshotSays()
      requires Valid()
      ensures Snapshot().covered == kv.Covered() && Snapshot().accurate == Accurate()
    {
    }

    /** Any run of puts, gets, invalidations and evictor rounds, of which trace shows every state. A message is
        served exactly when its queue has a receive for it, as the receives before the run and the requests so
        far decide; usage stays exact, and the filters report every cached key if each client's counters have
        room for its puts. */
    method Serve(requests: seq<Request>) returns (replies: seq<Reply>, ghost trace: seq<Snap>)
      requires Valid() && forall r :: r in requests ==> WellFormedRequest(r)
      modifies this, kv.table.buckets, kv.pool`out, kv.pool.allocs, kv.pool.useds, kv.pool.lists, kv.filterRepr
      ensures Valid() && IsRun(kv, trace, requests, replies) && |trace| == |requests| + 1
      ensures trace[0] == old(Snapshot()) && trace[|requests|] == Snapshot()
      ensures forall n :: 0 <= n < |requests| && !requests[n].Evict? ==>
        (replies[n] == Unserved <==> !ReadyBy(FlagsAfter(Flags(old(posted)), requests[..n]), requests[n]))
      ensures old(Accurate()) && (forall r :: r in requests ==> OwnKey(r)) ==> Accurate()
      ensures old(kv.Covered()) && (forall r :: r in requests ==> OwnKey(r)) && old(HasRoomFor(requests)) ==>
        kv.Covered() && forall n :: 0 <= n <= |requests| ==> trace[n].covered
    {
      RoomAtStart(requests);
      hide Server.Valid, Server.Snapshot, Server.HasRoomFor, Server.Accurate, KV.Covered, KV.FitsIn, IsRun, Stepped,
        FlagsAfter, Flags, ReadyBy, OwnKey, Server.WellFormedRequest, PutKeys;
      replies, trace := ServeAll(requests);
      RunKeeps(kv, trace, requests, replies);
      SnapshotSays();
    }

    method ServeAll(requests: seq<Request>) returns (replies: seq<Reply>, ghost trace: seq<Snap>)
      requires Valid() && forall r :: r in requests ==> WellFormedRequest(r)
      modifies this, kv.table.buckets, kv.pool`out, kv.pool.allocs, kv.pool.useds, kv.pool.lists, kv.filterRepr
      ensures Valid() && |trace| == |requests| + 1 && IsRun(kv, trace, requests, replies)
      ensures trace[0] == old(Snapshot()) && trace[|requests|] == Snapshot()
    {
      hide Server.Valid, Server.Snapshot, IsRun, Stepped, Server.WellFormedRequest;
      replies, trace := [], [Snapshot()];
      RunStart(kv, Snapshot());
      for n := 0 to |requests|
        invariant Valid() && |trace| == n + 1 && IsRun(kv, trace, requests[..n], replies)
        invariant trace[0] == old(Snapshot()) && trace[n] == Snapshot()
      {
        var reply := ServeOne(requests[n]);
        RunOn(kv, trace, requests[..n], replies, requests[n], reply, Snapshot());
        assert requests[..n + 1] == requests[..n] + [requests[n]];
        replies, trace := replies + [reply], trace + [Snapshot()];
      }
      assert requests[..|requests|] == requests;
    }
  }
}
