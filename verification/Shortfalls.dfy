/** Runs of the daemon in which it returns a page that is not the last one put, and reports a stored key absent. */
module Shortfalls {
  import opened Bits
  import opened Types
  import opened LongKey
  import opened ProbeTable
  import opened LinearProbing
  import opened SlotPool
  import opened CountingFilter
  import opened KeyValue
  import opened CacheRuns
  import opened Server

  /** Memory for 15 slots. */
  const SMALL: nat := 0x1_0000

  lemma SmallPool()
    ensures |Chunks(1, InitSlots(SMALL, 1, 1))| == 15
  {
    assert InitSlots(SMALL, 1, 1) == 15;
    ChunksFit(1, 15);
  }

  // ---- A stale page ----

  /** With one queue, no slot lost, and every slot either posted or cached, the lists are empty. */
  lemma AllSlots(server: Server)
    requires server.Valid() && server.kv.pool.numClients == server.kv.pool.perCli == 1 && server.Lost() == {}
    requires forall i :: 0 <= i < |server.posted[Queue(0, 0)]| ==> IsBuffer(server.posted[Queue(0, 0)][i])
    ensures server.kv.pool.Starved(0, 0) <==> |server.posted[Queue(0, 0)]| + |server.Cache()| == |server.kv.pool.chunks|
  {
    var u := Queue(0, 0);
    var recvs, hand := server.posted[u], server.kv.InHand();
    forall i, j | 0 <= i < j < |recvs| ensures recvs[i] != recvs[j] {
      assert PostedAt(server.posted, u, i, recvs[i]) && PostedAt(server.posted, u, j, recvs[j]);
    }
    forall a ensures a in hand <==> a in recvs {
      if a in hand {
        assert a !in server.Lost();
        var v, i :| PostedAt(server.posted, v, i, a);
        assert v == u;
      }
      if a in recvs {
        var i :| 0 <= i < |recvs| && recvs[i] == a;
        assert PostedAt(server.posted, u, i, a);
      }
    }
    DistinctCovers(recvs, hand);
    server.kv.OutSize();
    server.kv.pool.StarvedAlone();
    assert server.Cache().Keys == server.kv.table.Map().Keys;
  }

  /** One queue, 15 slots, none lost, and all but one posted. */
  ghost predicate AllButOne(server: Server)
    reads server, server.kv, server.kv.table, server.kv.table.buckets, server.kv.pool, server.kv.pool.allocs,
      server.kv.pool.useds, server.kv.pool.lists, server.kv.filterRepr
  {
    && server.Valid() && server.kv.pool.numClients == server.kv.pool.perCli == 1 && |server.kv.pool.chunks| == 15
    && server.Lost() == {} && |server.posted[Queue(0, 0)]| == 14
    && forall i :: 0 <= i < 14 ==> IsBuffer(server.posted[Queue(0, 0)][i])
  }

  method Start(hash: Hash, sh: Shape) returns (server: Server)
    requires sh.Ok() && sh.numHash < 256
    ensures AllButOne(server) && server.Cache() == map[]
    ensures fresh(server) && fresh(server.kv.OtherRepr() + server.kv.filterRepr)
  {
    hide KV.FiltersValid, Backed, PerCPUPool.Valid, LinearProbingApprox.Valid, LinearProbingApprox.Map, InitSlots,
      Chunks, PerCPUPool.Starved, KV.InHand, Unplaced, KV.Covered, KV.Accurate, KV.Contents, PostedApart;
    SmallPool();
    var kv := new KV(1, SMALL, 1, 1, hash, false, sh);
    server := new Server(kv);
    var mine, got := server.PrePostRecvs(Queue(0, 0), 14);
    EmptyStart(server);
  }

  lemma EmptyStart(server: Server)
    requires server.Valid() && server.kv.pool.numClients == server.kv.pool.perCli == 1
    ensures server.kv.pool.Starved(0, 0) <==> |server.kv.pool.out| == |server.kv.pool.chunks|
  {
    server.kv.pool.StarvedAlone();
  }

  function PutOf(page: Page): Request {
    Put(Queue(0, 0), page, 0, 0)
  }

  lemma SnapCache(server: Server)
    requires server.Valid()
    ensures server.Snapshot().cache == server.Cache()
  {
  }

  /** A put is stored if the cache is empty, and dropped if it holds the key. */
  method PutOne(server: Server, page: Page) returns (reply: Reply)
    requires AllButOne(server) && (server.Cache() == map[] || server.Cache().Keys == {0})
    modifies server, server.kv.table.buckets, server.kv.pool`out, server.kv.pool.allocs, server.kv.pool.useds,
      server.kv.pool.lists, server.kv.filterRepr
    ensures AllButOne(server) && Stepped(server.kv, old(server.Snapshot()), PutOf(page), reply, server.Snapshot())
    ensures reply == if old(server.Cache()) == map[] then Stored else Dropped
    ensures 0 in server.Cache() && server.Cache() == if reply.Stored? then map[0 := page] else old(server.Cache())
  {
    hide KV.FiltersValid, Backed, PerCPUPool.Valid, LinearProbingApprox.Valid, LinearProbingApprox.Map,
      PerCPUPool.StarvedIn, KV.InHand, Unplaced, KV.Covered, KV.Accurate, KV.Contents, PostedApart, Keeps, MadeRoom,
      Recounted;
    AllSlots(server);
    assert |server.Cache()| == |server.Cache().Keys|;
    reply := server.ServeOne(PutOf(page));
  }

  function Asks(p1: Page, p2: Page): seq<Request> {
    [PutOf(p1), PutOf(p2), Get(Queue(0, 0), 0)]
  }

  /** A server as it starts, its one queue connected with a receive for all slots but one: the first put takes the
      last slot, the second of the same key finds none and is dropped, and a get returns the first page. */
  method StaleReply(p1: Page, p2: Page, hash: Hash, sh: Shape)
    returns (server: Server, replies: seq<Reply>, ghost trace: seq<Snap>)
    requires sh.Ok() && sh.numHash < 256
    ensures server.Valid() && IsRun(server.kv, trace, Asks(p1, p2), replies) && trace[0].cache == map[]
    ensures replies == [Stored, Dropped, Returned(Some(p1))]
  {
    hide KV.FiltersValid, Backed, PerCPUPool.Valid, LinearProbingApprox.Valid, LinearProbingApprox.Map, KV.InHand,
      Unplaced, PostedApart, Server.Snapshot, Stepped, Cached;
    server := Start(hash, sh);
    ghost var s0 := server.Snapshot();
    SnapCache(server);
    var r0 := PutOne(server, p1);
    ghost var s1 := server.Snapshot();
    var r1 := PutOne(server, p2);
    ghost var s2 := server.Snapshot();
    var r2 := GetOne(server);
    replies, trace := [r0, r1, r2], [s0, s1, s2, server.Snapshot()];
  }

  method GetOne(server: Server) returns (reply: Reply)
    requires AllButOne(server) && 0 in server.Cache()
    modifies server, server.kv.table.buckets, server.kv.pool`out, server.kv.pool.allocs, server.kv.pool.useds,
      server.kv.pool.lists, server.kv.filterRepr
    ensures server.Valid() && Stepped(server.kv, old(server.Snapshot()), Get(Queue(0, 0), 0), reply, server.Snapshot())
    ensures reply == Returned(Some(old(server.Cache())[0]))
  {
    hide KV.FiltersValid, Backed, PerCPUPool.Valid, LinearProbingApprox.Valid, LinearProbingApprox.Map,
      PerCPUPool.StarvedIn, KV.InHand, Unplaced, KV.Covered, KV.Accurate, KV.Contents, PostedApart, Keeps;
    reply := server.ServeOne(Get(Queue(0, 0), 0));
  }

  // ---- A stored key reported absent ----

  /** A filter of one position and one salt. */
  const ONE_BIT := Shape(1, 1, (_, _) => 0)

  /** One client and few keys. */
  ghost predicate Roomy(kv: KV)
    reads kv.table, kv.table.buckets, kv.pool, kv.pool.allocs, kv.pool.useds, kv.pool.lists, kv.filterRepr
  {
    && kv.Valid() && kv.table.Calm() && |kv.table.Map()| <= 2
    && kv.pool.numClients == kv.pool.perCli == 1 && |kv.pool.chunks| == 15
    && |kv.cbfs| == 1 && kv.cbfOn && kv.cbfs[0].sh == ONE_BIT
  }

  lemma NotStarved(kv: KV)
    requires Roomy(kv) && kv.InHand() == {}
    ensures !kv.pool.Starved(0, 0)
  {
    kv.OutSize();
    kv.pool.StarvedAlone();
  }

  /** With so few keys no window is full. */
  lemma NoVictim(bs: seq<Bucket>, hash: Hash, key: Key, prevFree: bool, victim: Key)
    requires WellFormed(bs, hash) && |View(bs)| < WINDOW
    ensures !Chosen(bs, hash, key, prevFree, victim)
  {
    if |bs| >= WINDOW && !HasRoom(bs, Home(hash, key, |bs|)) { FullWindowKeys(bs, Home(hash, key, |bs|)); }
  }

  lemma NeverChosen(t: LinearProbingApprox)
    requires t.Valid() && |t.Map()| < WINDOW
    ensures forall key, prevFree, victim :: !Chosen(t.buckets[..], t.hash, key, prevFree, victim)
  {
    forall key, prevFree, victim ensures !Chosen(t.buckets[..], t.hash, key, prevFree, victim) {
      NoVictim(t.buckets[..], t.hash, key, prevFree, victim);
    }
  }

  lemma OneCounter(cs: seq<nat>, k: Key)
    requires |cs| == 1
    ensures Raise(ONE_BIT, cs, k, 1) == [Up(cs[0])] && Lower(ONE_BIT, cs, k, 1) == [Down(cs[0])]
    ensures Contains(ONE_BIT, cs, k) <==> cs[0] > 0
  {
    assert ONE_BIT.Index(k, 0) == 0;
    assert Raise(ONE_BIT, cs, k, 0) == cs == Lower(ONE_BIT, cs, k, 0);
  }

  ghost function Counter(kv: KV): nat
    requires kv.Valid()
    reads kv.table, kv.table.buckets, kv.pool, kv.pool.allocs, kv.pool.useds, kv.pool.lists, kv.filterRepr
  {
    if |kv.cbfs| > 0 && |kv.Counters(0)| > 0 then kv.Counters(0)[0] else 0
  }

  lemma FilterSize(kv: KV)
    requires Roomy(kv)
    ensures kv.Counters(0) == [Counter(kv)]
  {
    assert kv.cbfs[0].Valid();
  }

  method TakeSlot(kv: KV) returns (a: Addr)
    requires Roomy(kv) && kv.InHand() == {}
    modifies kv.pool`out, kv.pool.useds, kv.pool.lists
    ensures Roomy(kv) && kv.InHand() == {a} && kv.table.Map() == old(kv.table.Map())
    ensures kv.Counters(0) == old(kv.Counters(0))
  {
    NotStarved(kv);
    hide KV.FiltersValid, Backed, PerCPUPool.Valid, PerCPUPool.Starved, LinearProbingApprox.Valid,
      LinearProbingApprox.Map, LinearProbingApprox.Calm, KV.InHand, KV.Covered, KV.Accurate, KV.Contents, KV.Counters,
      KV.Room;
    var value := kv.Allocate(0, 0);
    a := value.value;
  }

  /** With no victim to choose, the key joins those stored and its counter is raised. */
  method InsertFew(kv: KV, key: Key, a: Addr)
    requires Roomy(kv) && kv.InHand() == {a} && Storable(key) && Cid(key) == 0 && |kv.table.Map().Keys + {key}| <= 2
    requires forall prevFree, victim :: !Chosen(kv.table.buckets[..], kv.table.hash, key, prevFree, victim)
    modifies kv.table.buckets, kv.pool`out, kv.pool.useds, kv.pool.lists, kv.filterRepr
    ensures Roomy(kv) && kv.InHand() == {} && kv.table.Map().Keys == old(kv.table.Map()).Keys + {key}
    ensures kv.Counters(0) == Raise(ONE_BIT, old(kv.Counters(0)), key, 1)
  {
    hide KV.FiltersValid, Backed, PerCPUPool.Valid, PerCPUPool.Starved, LinearProbingApprox.Valid,
      LinearProbingApprox.Map, LinearProbingApprox.Calm, KV.InHand, KV.Covered, KV.Accurate, KV.Contents, KV.Counters,
      KV.Room, Recounted, Chosen, Raise, Settled, Cid, Contains;
    var passes, stored, victim := kv.Insert(key, a, 0);
    assert |kv.table.Map()| == |kv.table.Map().Keys|;
  }

  /** A put raises the counter by one, or from 255 to 1. */
  method CountOne(kv: KV, key: Key)
    requires Roomy(kv) && kv.InHand() == {} && Storable(key) && Cid(key) == 0 && |kv.table.Map().Keys + {key}| <= 2
    modifies kv.table.buckets, kv.pool`out, kv.pool.useds, kv.pool.lists, kv.filterRepr
    ensures Roomy(kv) && kv.InHand() == {} && kv.table.Map().Keys == old(kv.table.Map()).Keys + {key}
    ensures Counter(kv) == Up(old(Counter(kv)))
  {
    FilterSize(kv);
    hide KV.FiltersValid, Backed, PerCPUPool.Valid, LinearProbingApprox.Valid, LinearProbingApprox.Map,
      LinearProbingApprox.Calm, KV.InHand, KV.Counters, Chosen, Raise, Lower, Cid, Contains;
    var a := TakeSlot(kv);
    NeverChosen(kv.table);
    OneCounter(kv.Counters(0), key);
    InsertFew(kv, key, a);
  }

  method Begin(hash: Hash) returns (kv: KV)
    ensures Roomy(kv) && kv.InHand() == {} && kv.table.Map() == map[] && Counter(kv) == 0
    ensures fresh(kv.OtherRepr() + kv.filterRepr)
  {
    hide PerCPUPool.Valid, LinearProbingApprox.Valid, LinearProbingApprox.Map, LinearProbingApprox.Calm, InitSlots,
      Chunks;
    SmallPool();
    kv := new KV(1, SMALL, 1, 1, hash, true, ONE_BIT);
    assert kv.Contents()[0] == multiset{};
    assert kv.cbfs[0].Refines() && kv.cbfs[0].Valid();
  }

  /** One key put 255 times, and then another. */
  method FillUp(hash: Hash) returns (kv: KV)
    ensures Roomy(kv) && kv.InHand() == {} && kv.table.Map().Keys == {1, 2} && kv.Counters(0) == [1]
    ensures fresh(kv.OtherRepr() + kv.filterRepr)
  {
    hide KV.FiltersValid, Backed, PerCPUPool.Valid, LinearProbingApprox.Valid, LinearProbingApprox.Map,
      LinearProbingApprox.Calm, KV.InHand, KV.Counters;
    kv := Begin(hash);
    for i := 0 to 255
      invariant Roomy(kv) && kv.InHand() == {} && Counter(kv) == i && kv.table.Map().Keys == if i == 0 then {} else {1}
    {
      CountOne(kv, 1);
    }
    CountOne(kv, 2);
    FilterSize(kv);
  }

  /** A key put 255 times takes the counter to its last value, the next key takes it to 1, and the removal of the
      first to 0: the filter denies the second, which is stored. */
  method OverflowHides(hash: Hash) returns (kv: KV)
    ensures kv.Valid() && kv.table.Map().Keys == {2} && Cid(2) == 0 && |kv.cbfs| == 1 && kv.cbfs[0].sh == ONE_BIT
    ensures !Contains(ONE_BIT, kv.Counters(0), 2)
  {
    hide KV.FiltersValid, Backed, PerCPUPool.Valid, LinearProbingApprox.Valid, LinearProbingApprox.Map,
      LinearProbingApprox.Calm, KV.InHand, KV.Counters, Lower, Contains;
    kv := FillUp(hash);
    OneCounter([1], 1);
    var value := kv.Remove(1, 0);
    OneCounter([0], 2);
  }
}
