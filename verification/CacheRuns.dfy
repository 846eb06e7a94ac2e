/** Runs of the daemon as a cache: what each request does to what was cached, posted, counted and lost, and
    what follows for every run. */
module CacheRuns {
  import opened Arith
  import opened Types
  import opened LongKey
  import opened ProbeTable
  import opened LinearProbing
  import opened SlotPool
  import opened KeyValue

  type Page = seq<bv8>

  /** Queue qid of client cid. */
  datatype Queue = Queue(cid: nat, qid: nat)

  /** The receives posted on each queue, oldest first. */
  type Posts = map<Queue, seq<Addr>>

  /** A receive may be posted without a buffer, or with the address of no slot. */
  predicate IsBuffer(a: Addr) {
    a != NONE && a != BAD
  }

  ghost function Only(a: Addr): set<Addr> {
    if IsBuffer(a) then {a} else {}
  }

  /** A message on queue u, or a round of the evictor of list fl. A put's drawn is the queue whose list the
      handler's random draw picks. */
  datatype Request =
    | Put(u: Queue, page: Page, key: Key, drawn: nat)
    | Get(u: Queue, key: Key)
    | Invalidate(u: Queue, key: Key)
    | Evict(fl: nat, supply: seq<seq<Attempt>>)

  datatype Reply =
    | Unserved
    | Stored
    | Dropped
    | Returned(page: Option<Page>)
    | Invalidated(committed: bool)
    | RoundOver(stalled: bool, evictCnt: nat)

  /** A request's key carries the client it is sent by. */
  ghost predicate OwnKey(r: Request) {
    !r.Evict? ==> Cid(r.key) == r.u.cid
  }

  /** The tries for the n-th eviction of a round. */
  function Supply(supply: seq<seq<Attempt>>, n: nat): seq<Attempt> {
    if n < |supply| then supply[n] else []
  }

  /** What the state of the server comes to. Covered says that the counting filters are exact and report every
      key cached, accurate that every client's usage is the slots it holds. */
  datatype Snap = Snap(cache: map<Key, Page>, posted: Posts, lost: set<Addr>, bs: seq<Bucket>,
                       allocs: seq<nat>, useds: seq<nat>, lists: seq<seq<Addr>>,
                       contents: seq<multiset<Key>>, covered: bool, accurate: bool)

  // ---- Steps ----

  /** A receive is posted for the request's message, with a buffer if it is a put. */
  predicate Ready(posted: Posts, r: Request) {
    !r.Evict? && r.u in posted && posted[r.u] != [] && (r.Put? ==> IsBuffer(posted[r.u][0]))
  }

  /** The oldest receive completes and another is posted. */
  function Turned(posted: Posts, u: Queue, a: Addr): Posts
    requires u in posted && posted[u] != []
  {
    posted[u := posted[u][1..] + [a]]
  }

  /** The lists the put would try are empty. */
  ghost predicate Starving(kv: KV, s: Snap, r: Request)
    requires r.Put?
  {
    kv.pool.StarvedIn(s.lists, r.u.cid, r.drawn)
  }

  /** The key's window was full, and the victim is the entry the table chooses to replace. */
  ghost predicate MadeRoom(bs: seq<Bucket>, hash: Hash, key: Key, victim: Key) {
    exists prevFree :: Chosen(bs, hash, key, prevFree, victim)
  }

  /** The page is stored, in place of a victim's if the key is new and its window full. */
  ghost predicate StoredBy(kv: KV, s: Snap, r: Request, s': Snap, next: Addr, victim: Option<Key>)
    requires r.Put? && Ready(s.posted, r)
  {
    && IsBuffer(next) && s'.posted == Turned(s.posted, r.u, next) && s'.lost == s.lost
    && (victim.Some? ==>
          r.key !in s.cache && victim.value in s.cache && MadeRoom(s.bs, kv.table.hash, r.key, victim.value))
    && s'.cache == (if victim.None? then s.cache else s.cache - {victim.value})[r.key := r.page]
    && (s.covered && OwnKey(r) ==> s'.contents == Recounted(s.contents, r.u.cid, r.key, true, victim))
  }

  /** With the lists tried empty, nothing changes but the receive queue, whose head goes to its end. */
  ghost predicate DroppedBy(s: Snap, r: Request, s': Snap)
    requires r.Put? && Ready(s.posted, r)
  {
    && s'.posted == Turned(s.posted, r.u, s.posted[r.u][0]) && s'.cache == s.cache && s'.lost == s.lost && s'.bs == s.bs
    && s'.allocs == s.allocs && s'.useds == s.useds && s'.lists == s.lists && s'.contents == s.contents
  }

  ghost predicate PutStep(kv: KV, s: Snap, r: Request, reply: Reply, s': Snap)
    requires r.Put?
  {
    if !Ready(s.posted, r) then reply == Unserved && s' == s
    else if Starving(kv, s, r) then reply == Dropped && DroppedBy(s, r, s')
    else reply == Stored && exists next, victim :: StoredBy(kv, s, r, s', next, victim)
  }

  /** A get or an invalidation removes the key's page, and loses the buffer of the receive it consumes. */
  ghost predicate TakeStep(s: Snap, r: Request, reply: Reply, s': Snap)
    requires r.Get? || r.Invalidate?
  {
    if !Ready(s.posted, r) then reply == Unserved && s' == s
    else
      && reply == (if r.Get? then Returned(Lookup(s.cache, r.key)) else Invalidated(r.key in s.cache))
      && s'.posted == Turned(s.posted, r.u, NONE) && s'.cache == s.cache - {r.key}
      && s'.lost == s.lost + Only(s.posted[r.u][0]) && s.lost !! Only(s.posted[r.u][0])
      && (s.covered && OwnKey(r) ==>
            s'.contents == if r.key in s.cache then WithoutKey(s.contents, r.u.cid, r.key) else s.contents)
  }

  function Lookup(c: map<Key, Page>, key: Key): Option<Page> {
    if key in c then Some(c[key]) else None
  }

  /** The bytes on a list. */
  function FreeOf(s: Snap, fl: nat): nat {
    if fl < |s.lists| then SLOT_SIZE * |s.lists[fl]| else 0
  }

  function ThldOf(kv: KV, s: Snap, fl: nat): nat {
    if fl < |s.allocs| then kv.pool.Thld(s.allocs[fl]) else 0
  }

  ghost predicate NoneFound(bs: seq<Bucket>, attempts: seq<Attempt>) {
    |bs| >= WINDOW && SearchFrom(bs, attempts, 0, NOBODY).slot == -1
  }

  /** A round takes the pages of gone out of the cache, and ends with the list's free megabytes at the threshold,
      its evictions used up, or no victim to be found. */
  ghost predicate RoundBy(kv: KV, s: Snap, r: Request, reply: Reply, s': Snap, gone: set<Key>)
    requires r.Evict? && reply.RoundOver?
  {
    && gone <= s.cache.Keys && |gone| == reply.evictCnt && s'.cache == s.cache - gone
    && s'.posted == s.posted && s'.lost == s.lost
    && (s.covered ==> Uncounted(s.contents, gone, s'.contents))
    && var free, thld := FreeOf(s', r.fl), ThldOf(kv, s, r.fl);
       reply.evictCnt <= EvictLimit(thld) + 1 &&
       if reply.stalled then free / MB < thld / MB && NoneFound(s'.bs, Supply(r.supply, reply.evictCnt))
       else free / MB >= thld / MB || reply.evictCnt > ToInt32(thld / PAGE_SIZE)
  }

  ghost predicate RoundStep(kv: KV, s: Snap, r: Request, reply: Reply, s': Snap)
    requires r.Evict?
  {
    if r.fl >= kv.pool.lists.Length then reply == Unserved && s' == s
    else reply.RoundOver? && exists gone :: RoundBy(kv, s, r, reply, s', gone)
  }

  /** Usage stays exact, and the filters exact and complete while the counters a put reaches have room. */
  ghost predicate Keeps(kv: KV, s: Snap, r: Request, reply: Reply, s': Snap) {
    && (s.accurate && OwnKey(r) ==> s'.accurate)
    && (s.covered && OwnKey(r) && (r.Put? && reply.Stored? ==> kv.RoomIn(s.contents, r.u.cid, r.key)) ==> s'.covered)
  }

  ghost predicate Stepped(kv: KV, s: Snap, r: Request, reply: Reply, s': Snap) {
    && Keeps(kv, s, r, reply, s')
    && match r
       case Put(_, _, _, _) => PutStep(kv, s, r, reply, s')
       case Get(_, _) => TakeStep(s, r, reply, s')
       case Invalidate(_, _) => TakeStep(s, r, reply, s')
       case Evict(_, _) => RoundStep(kv, s, r, reply, s')
  }

  /** The states a run goes through: trace[i] is where request i is made. */
  ghost predicate IsRun(kv: KV, trace: seq<Snap>, requests: seq<Request>, replies: seq<Reply>) {
    && |trace| == |requests| + 1 && |replies| == |requests|
    && forall i :: 0 <= i < |requests| ==> Stepped(kv, trace[i], requests[i], replies[i], trace[i + 1])
  }

  lemma RunStart(kv: KV, s: Snap)
    ensures IsRun(kv, [s], [], [])
  {
  }

  lemma RunOn(kv: KV, trace: seq<Snap>, requests: seq<Request>, replies: seq<Reply>, r: Request, reply: Reply, s': Snap)
    requires IsRun(kv, trace, requests, replies) && Stepped(kv, trace[|requests|], r, reply, s')
    ensures IsRun(kv, trace + [s'], requests + [r], replies + [reply])
  {
    hide Stepped;
    var t, rs, ps := trace + [s'], requests + [r], replies + [reply];
    forall i | 0 <= i < |rs| ensures Stepped(kv, t[i], rs[i], ps[i], t[i + 1]) {
      if i < |requests| { assert Stepped(kv, trace[i], requests[i], replies[i], trace[i + 1]); }
    }
  }

  // ---- Which requests are served ----

  /** Which receives of each queue have a buffer. */
  function Flags(posted: Posts): map<Queue, seq<bool>> {
    map u | u in posted :: seq(|posted[u]|, i requires 0 <= i < |posted[u]| => IsBuffer(posted[u][i]))
  }

  predicate ReadyBy(flags: map<Queue, seq<bool>>, r: Request) {
    !r.Evict? && r.u in flags && flags[r.u] != [] && (r.Put? ==> flags[r.u][0])
  }

  /** A served put leaves a receive with a buffer, a served get or invalidation one without. */
  function FlagsAfter(flags: map<Queue, seq<bool>>, requests: seq<Request>): map<Queue, seq<bool>> {
    if requests == [] then flags
    else
      var before := FlagsAfter(flags, requests[..|requests| - 1]);
      var r := requests[|requests| - 1];
      if ReadyBy(before, r) then before[r.u := before[r.u][1..] + [r.Put?]] else before
  }

  /** A message is served if and only if its queue has a receive for it, and which receives are there is known
      from the requests before it alone. */
  lemma {:induction false} ServedIff(kv: KV, trace: seq<Snap>, requests: seq<Request>, replies: seq<Reply>, n: nat)
    requires IsRun(kv, trace, requests, replies) && n <= |requests|
    ensures Flags(trace[n].posted) == FlagsAfter(Flags(trace[0].posted), requests[..n])
    ensures n < |requests| && !requests[n].Evict? ==>
      (replies[n] == Unserved <==> !ReadyBy(FlagsAfter(Flags(trace[0].posted), requests[..n]), requests[n]))
    ensures n < |requests| && !requests[n].Evict? ==>
      var r, posted := requests[n], trace[n].posted;
      replies[n] != Unserved <==>
        r.u in posted && posted[r.u] != [] && (r.Put? ==> posted[r.u][0] != NONE && posted[r.u][0] != BAD)
  {
    hide Stepped, Flags;
    if n > 0 {
      ServedIff(kv, trace, requests, replies, n - 1);
      assert Stepped(kv, trace[n - 1], requests[n - 1], replies[n - 1], trace[n]);
      assert requests[..n][..n - 1] == requests[..n - 1];
      FlagsTurn(kv, trace[n - 1], requests[n - 1], replies[n - 1], trace[n]);
    }
    if n < |requests| && !requests[n].Evict? {
      assert Stepped(kv, trace[n], requests[n], replies[n], trace[n + 1]);
      UnservedIff(kv, trace[n], requests[n], replies[n], trace[n + 1]);
    }
  }

  lemma UnservedIff(kv: KV, s: Snap, r: Request, reply: Reply, s': Snap)
    requires Stepped(kv, s, r, reply, s') && !r.Evict?
    ensures reply == Unserved <==> !ReadyBy(Flags(s.posted), r)
    ensures reply == Unserved <==> !Ready(s.posted, r)
  {
    hide Keeps, Starving, MadeRoom;
  }

  /** A put is dropped if and only if it is served and finds empty the list drawn and the half of its client's ring
      from there on. */
  lemma DroppedIff(kv: KV, trace: seq<Snap>, requests: seq<Request>, replies: seq<Reply>, n: nat)
    requires IsRun(kv, trace, requests, replies) && n < |requests| && requests[n].Put?
    requires requests[n].u.cid < kv.pool.numClients && requests[n].drawn < kv.pool.perCli
    requires |trace[n].lists| == kv.pool.numClients * kv.pool.perCli
    ensures var q, m := requests[n].drawn, kv.pool.perCli;
      replies[n] == Dropped <==>
        && replies[n] != Unserved
        && forall p: nat :: p < m && (p == q || (p + m - q) % m < m / 2) ==>
             kv.pool.ListsOf(trace[n].lists, requests[n].u.cid)[p] == []
  {
    assert Stepped(kv, trace[n], requests[n], replies[n], trace[n + 1]);
    kv.pool.StarvedMeans(trace[n].lists, requests[n].u.cid, requests[n].drawn);
    hide Keeps, MadeRoom, PerCPUPool.StarvedIn, PerCPUPool.ListsOf;
  }

  /** A page of another key leaves at a put only if the key put is new and its window full; it is the only one, not
      busy, and none of the ranges it may be chosen from is older. */
  lemma PutEvicts(kv: KV, trace: seq<Snap>, requests: seq<Request>, replies: seq<Reply>, n: nat, k: Key)
    returns (prevFree: bool, e: nat)
    requires IsRun(kv, trace, requests, replies) && n < |requests| && requests[n].Put?
    requires k in trace[n].cache && k !in trace[n + 1].cache
    ensures requests[n].key !in trace[n].cache && replies[n] == Stored
    ensures trace[n + 1].cache == (trace[n].cache - {k})[requests[n].key := requests[n].page]
    ensures var bs := trace[n].bs;
      && |bs| >= WINDOW
      && var loc := Home(kv.table.hash, requests[n].key, |bs|);
         && e < WINDOW && !HasRoom(bs, loc) && At(bs, loc, e).key == k && !At(bs, loc, e).busy
         && IsVictim(bs, loc, prevFree, e)
  {
    var s, r, s' := trace[n], requests[n], trace[n + 1];
    assert Stepped(kv, s, r, replies[n], s');
    hide Keeps, Starving, Recounted, Chosen, IsVictim, HasRoom;
    var next, victim :| StoredBy(kv, s, r, s', next, victim);
    assert victim == Some(k);
    prevFree :| Chosen(s.bs, kv.table.hash, r.key, prevFree, k);
    ChosenInside(s.bs, kv.table.hash, r.key, prevFree, k);
    e := ChosenIsVictim(s.bs, kv.table.hash, r.key, prevFree, k);
  }

  lemma ChosenInside(bs: seq<Bucket>, hash: Hash, key: Key, prevFree: bool, victim: Key)
    requires Chosen(bs, hash, key, prevFree, victim)
    ensures |bs| >= WINDOW && !HasRoom(bs, Home(hash, key, |bs|))
  {
  }

  /** A round's threshold is the larger of the minimum and 5 per cent of the list's allocation at its start. It ends
      with the free megabytes of the list no fewer than the threshold's, unless it evicts one page more than the
      threshold holds, or stalls as none of the tries left has to find a victim. */
  lemma RoundReaches(kv: KV, trace: seq<Snap>, requests: seq<Request>, replies: seq<Reply>, n: nat, share: nat, t: nat)
    requires IsRun(kv, trace, requests, replies) && n < |requests| && requests[n].Evict? && replies[n].RoundOver?
    requires requests[n].fl < |trace[n].allocs| && requests[n].fl < |trace[n + 1].lists|
    requires share == trace[n].allocs[requests[n].fl] * 5 / 100 < 0x8000_0000
    requires t == (if share > kv.pool.minFlFree then share else kv.pool.minFlFree) && t / PAGE_SIZE < 0x8000_0000
    ensures var free, evictCnt := SLOT_SIZE * |trace[n + 1].lists[requests[n].fl]|, replies[n].evictCnt;
      && evictCnt <= t / PAGE_SIZE + 1
      && if replies[n].stalled then free / MB < t / MB
         else free / MB >= t / MB || evictCnt == t / PAGE_SIZE + 1
    ensures replies[n].stalled ==>
      |trace[n + 1].bs| >= WINDOW && NoneOffers(trace[n + 1].bs, Supply(requests[n].supply, replies[n].evictCnt))
  {
    var s, r, reply, s' := trace[n], requests[n], replies[n], trace[n + 1];
    assert Stepped(kv, s, r, reply, s');
    hide Keeps, Uncounted, SearchFrom, NoneOffers, ToInt32, EvictLimit, PerCPUPool.Thld;
    var gone :| RoundBy(kv, s, r, reply, s', gone);
    if reply.stalled { NoneFoundMeans(s'.bs, Supply(r.supply, reply.evictCnt)); }
  }

  lemma NoneFoundMeans(bs: seq<Bucket>, attempts: seq<Attempt>)
    requires NoneFound(bs, attempts)
    ensures |bs| >= WINDOW && NoneOffers(bs, attempts)
  {
    SearchLaw(bs, attempts, 0, NOBODY);
    hide SearchFrom, Offers, MayEvict, FromTries, AllUndisturbed, InWindow;
  }

  lemma FlagsTurn(kv: KV, s: Snap, r: Request, reply: Reply, s': Snap)
    requires Stepped(kv, s, r, reply, s')
    ensures ReadyBy(Flags(s.posted), r) <==> Ready(s.posted, r)
    ensures Flags(s'.posted) ==
      if Ready(s.posted, r) then Flags(s.posted)[r.u := Flags(s.posted)[r.u][1..] + [r.Put?]] else Flags(s.posted)
  {
    hide Keeps, Starving, MadeRoom, NoneFound, FreeOf, ThldOf;
    if Ready(s.posted, r) {
      var a := if r.Put? then s'.posted[r.u][|s'.posted[r.u]| - 1] else NONE;
      assert s'.posted == Turned(s.posted, r.u, a);
      assert Flags(s'.posted)[r.u] == Flags(s.posted)[r.u][1..] + [r.Put?];
    }
  }

  // ---- What is lost ----

  /** The served gets and invalidations that consumed a receive with a buffer. */
  ghost function Wasted(flags: map<Queue, seq<bool>>, requests: seq<Request>): nat {
    if requests == [] then 0
    else
      var before := FlagsAfter(flags, requests[..|requests| - 1]);
      var r := requests[|requests| - 1];
      Wasted(flags, requests[..|requests| - 1]) + if !r.Put? && ReadyBy(before, r) && before[r.u][0] then 1 else 0
  }

  lemma LostStep(kv: KV, s: Snap, r: Request, reply: Reply, s': Snap)
    requires Stepped(kv, s, r, reply, s')
    ensures var flags := Flags(s.posted);
      && s.lost <= s'.lost
      && |s'.lost| == |s.lost| + if !r.Put? && ReadyBy(flags, r) && flags[r.u][0] then 1 else 0
  {
    hide Keeps, Starving, MadeRoom, Turned, NoneFound, FreeOf, ThldOf;
    if !r.Put? && Ready(s.posted, r) {
      assert |s.lost + Only(s.posted[r.u][0])| == |s.lost| + |Only(s.posted[r.u][0])|;
    }
  }

  /** Every slot once lost stays lost, and each get or invalidation that takes a receive meant for a put loses one
      more; nothing else does. */
  lemma {:induction false} LostForEver(kv: KV, trace: seq<Snap>, requests: seq<Request>, replies: seq<Reply>, n: nat)
    requires IsRun(kv, trace, requests, replies) && n <= |requests|
    ensures trace[0].lost <= trace[n].lost
    ensures |trace[n].lost| == |trace[0].lost| + Wasted(Flags(trace[0].posted), requests[..n])
  {
    hide Stepped, Flags;
    if n > 0 {
      LostForEver(kv, trace, requests, replies, n - 1);
      ServedIff(kv, trace, requests, replies, n - 1);
      assert requests[..n][..n - 1] == requests[..n - 1];
      var s, r, s' := trace[n - 1], requests[n - 1], trace[n];
      assert Stepped(kv, s, r, replies[n - 1], s');
      LostStep(kv, s, r, replies[n - 1], s');
    }
  }

  // ---- What the cache holds ----

  /** The page last stored under the key and neither read nor invalidated since. */
  ghost function LastStored(c0: map<Key, Page>, requests: seq<Request>, replies: seq<Reply>, key: Key): Option<Page>
    requires |requests| == |replies|
  {
    if requests == [] then Lookup(c0, key)
    else
      var n := |requests| - 1;
      if requests[n].Evict? || requests[n].key != key || replies[n].Unserved? || replies[n].Dropped?
      then LastStored(c0, requests[..n], replies[..n], key)
      else if requests[n].Put? then Some(requests[n].page) else None
  }

  /** What is cached is what was last stored, in every run. */
  lemma {:induction false} CacheIsLastStored(kv: KV, trace: seq<Snap>, requests: seq<Request>, replies: seq<Reply>,
                                             n: nat, key: Key)
    requires IsRun(kv, trace, requests, replies) && n <= |requests| && key in trace[n].cache
    ensures LastStored(trace[0].cache, requests[..n], replies[..n], key) == Some(trace[n].cache[key])
  {
    if n > 0 {
      var s, r, reply, s' := trace[n - 1], requests[n - 1], replies[n - 1], trace[n];
      assert Stepped(kv, s, r, reply, s');
      assert requests[..n][..n - 1] == requests[..n - 1] && replies[..n][..n - 1] == replies[..n - 1];
      CacheStep(kv, s, r, reply, s', key);
      if r.Evict? || r.key != key || reply.Unserved? || reply.Dropped? {
        CacheIsLastStored(kv, trace, requests, replies, n - 1, key);
      }
    }
  }

  lemma CacheStep(kv: KV, s: Snap, r: Request, reply: Reply, s': Snap, key: Key)
    requires Stepped(kv, s, r, reply, s') && key in s'.cache
    ensures if r.Evict? || r.key != key || reply.Unserved? || reply.Dropped?
            then key in s.cache && s'.cache[key] == s.cache[key]
            else r.Put? && s'.cache[key] == r.page
  {
    hide Keeps, Starving, MadeRoom, Recounted;
  }

  /** Every page returned is the one last stored under its key, in every run. */
  lemma RepliesAreLastStored(kv: KV, trace: seq<Snap>, requests: seq<Request>, replies: seq<Reply>, i: nat)
    requires IsRun(kv, trace, requests, replies) && i < |requests| && requests[i].Get?
    requires replies[i].Returned? && replies[i].page.Some?
    ensures LastStored(trace[0].cache, requests[..i], replies[..i], requests[i].key) == replies[i].page
  {
    assert Stepped(kv, trace[i], requests[i], replies[i], trace[i + 1]);
    CacheIsLastStored(kv, trace, requests, replies, i, requests[i].key);
  }

  /** The last message before i about the key that was served, or -1. */
  ghost function LastAbout(requests: seq<Request>, replies: seq<Reply>, i: nat, key: Key): (j: int)
    requires i <= |requests| == |replies|
    ensures -1 <= j < i
    ensures j >= 0 ==> !requests[j].Evict? && requests[j].key == key && replies[j] != Unserved
  {
    if i == 0 then -1
    else if !requests[i - 1].Evict? && requests[i - 1].key == key && replies[i - 1] != Unserved then i - 1
    else LastAbout(requests, replies, i - 1, key)
  }

  /** A put that leaves another page under its key: the lists it would try are empty, and the key is cached. */
  ghost predicate Overtaken(kv: KV, s: Snap, r: Request)
    requires r.Put?
  {
    Starving(kv, s, r) && r.key in s.cache && s.cache[r.key] != r.page
  }

  /** A cached page comes from the last put served under its key, unless that put found the lists it would try
      empty and another page cached. */
  lemma {:induction false} CacheIsLatestIff(kv: KV, trace: seq<Snap>, requests: seq<Request>, replies: seq<Reply>,
                                            n: nat, key: Key)
    requires IsRun(kv, trace, requests, replies) && n <= |requests| && key in trace[n].cache
    ensures var j := LastAbout(requests, replies, n, key);
      if j < 0 then key in trace[0].cache && trace[0].cache[key] == trace[n].cache[key]
      else requests[j].Put? && (trace[n].cache[key] == requests[j].page <==> !Overtaken(kv, trace[j], requests[j]))
  {
    if n > 0 {
      var s, r, reply, s' := trace[n - 1], requests[n - 1], replies[n - 1], trace[n];
      assert Stepped(kv, s, r, reply, s');
      CacheStep(kv, s, r, reply, s', key);
      if r.Evict? || r.key != key || reply.Unserved? {
        CacheIsLatestIff(kv, trace, requests, replies, n - 1, key);
      } else {
        assert r.Put? && (reply.Dropped? <==> Starving(kv, s, r));
      }
    }
  }

  /** A page returned is the last one put under its key if and only if that put did not find the lists it would
      try empty and another page cached. */
  lemma RepliesAreLatestIff(kv: KV, trace: seq<Snap>, requests: seq<Request>, replies: seq<Reply>, i: nat)
    requires IsRun(kv, trace, requests, replies) && i < |requests| && requests[i].Get?
    requires replies[i].Returned? && replies[i].page.Some? && requests[i].key !in trace[0].cache
    ensures var j := LastAbout(requests, replies, i, requests[i].key);
      && j >= 0 && requests[j].Put?
      && (replies[i].page.value == requests[j].page <==> !Overtaken(kv, trace[j], requests[j]))
  {
    assert Stepped(kv, trace[i], requests[i], replies[i], trace[i + 1]);
    CacheIsLatestIff(kv, trace, requests, replies, i, requests[i].key);
  }

  /** Every cached page is that of the last put served under its key. */
  ghost predicate Fresh(trace: seq<Snap>, requests: seq<Request>, replies: seq<Reply>, n: nat)
    requires n <= |requests| == |replies| && |trace| == |requests| + 1
  {
    forall k :: k in trace[n].cache ==>
      var j := LastAbout(requests, replies, n, k); j >= 0 ==> requests[j].Put? && requests[j].page == trace[n].cache[k]
  }

  /** The cache is fresh throughout a run if and only if no put is overtaken. */
  lemma {:induction false} FreshThroughout(kv: KV, trace: seq<Snap>, requests: seq<Request>, replies: seq<Reply>)
    requires IsRun(kv, trace, requests, replies)
    ensures (forall n: nat :: n <= |requests| ==> Fresh(trace, requests, replies, n)) <==>
      forall n: nat :: n < |requests| && requests[n].Put? && Ready(trace[n].posted, requests[n]) ==>
        !Overtaken(kv, trace[n], requests[n])
  {
    forall n: nat, k | n <= |requests| && k in trace[n].cache
      ensures var j := LastAbout(requests, replies, n, k);
        j >= 0 ==>
          requests[j].Put? && (trace[n].cache[k] == requests[j].page <==> !Overtaken(kv, trace[j], requests[j]))
      ensures var j := LastAbout(requests, replies, n, k); j >= 0 ==> Ready(trace[j].posted, requests[j])
    {
      CacheIsLatestIff(kv, trace, requests, replies, n, k);
      var j := LastAbout(requests, replies, n, k);
      if j >= 0 { assert Stepped(kv, trace[j], requests[j], replies[j], trace[j + 1]); }
    }
    forall n: nat | n < |requests| && requests[n].Put? && Ready(trace[n].posted, requests[n])
        && Overtaken(kv, trace[n], requests[n])
      ensures !Fresh(trace, requests, replies, n + 1)
    {
      assert Stepped(kv, trace[n], requests[n], replies[n], trace[n + 1]);
      assert LastAbout(requests, replies, n + 1, requests[n].key) == n;
    }
  }

  /** Usage stays exact while every message carries its own client's key. */
  lemma {:induction false} StaysAccurate(kv: KV, trace: seq<Snap>, requests: seq<Request>, replies: seq<Reply>, n: nat)
    requires IsRun(kv, trace, requests, replies) && n <= |requests| && trace[0].accurate
    requires forall r :: r in requests ==> OwnKey(r)
    ensures trace[n].accurate
  {
    if n > 0 {
      StaysAccurate(kv, trace, requests, replies, n - 1);
      assert Stepped(kv, trace[n - 1], requests[n - 1], replies[n - 1], trace[n]) && requests[n - 1] in requests;
    }
  }

  // ---- What the filters count ----

  /** The keys client c's puts ask to store. */
  ghost function PutKeys(requests: seq<Request>, c: nat): multiset<Key> {
    if requests == [] then multiset{}
    else PutKey(requests[0], c) + PutKeys(requests[1..], c)
  }

  ghost function PutKey(r: Request, c: nat): multiset<Key> {
    if r.Put? && r.u.cid == c then multiset{r.key} else multiset{}
  }

  lemma UncountedLess(contents: seq<multiset<Key>>, gone: set<Key>, contents': seq<multiset<Key>>, c: nat)
    requires Uncounted(contents, gone, contents') && c < |contents|
    ensures contents'[c] <= contents[c]
  {
  }

  lemma RecountedLess(contents: seq<multiset<Key>>, d: nat, key: Key, victim: Option<Key>, c: nat)
    ensures var after := Recounted(contents, d, key, true, victim);
      && |after| == |contents|
      && (c < |contents| ==> after[c] <= contents[c] + if d == c then multiset{key} else multiset{})
  {
    hide Cid;
    var less := if victim.Some? then WithoutKey(contents, Cid(victim.value), victim.value) else contents;
    assert c < |contents| ==> less[c] <= contents[c];
  }

  /** A step counts at most the key put. */
  lemma CountStep(kv: KV, s: Snap, r: Request, reply: Reply, s': Snap, c: nat)
    requires Stepped(kv, s, r, reply, s') && s.covered && OwnKey(r)
    ensures |s'.contents| == |s.contents| && (c < |s.contents| ==> s'.contents[c] <= s.contents[c] + PutKey(r, c))
  {
    hide Keeps, Starving, MadeRoom, Recounted, Turned, NoneFound, FreeOf, ThldOf, Cid;
    if r.Put? && reply.Stored? {
      var next, victim :| StoredBy(kv, s, r, s', next, victim);
      RecountedLess(s.contents, r.u.cid, r.key, victim, c);
    } else if r.Evict? && reply.RoundOver? && c < |s.contents| {
      var gone :| RoundBy(kv, s, r, reply, s', gone);
      UncountedLess(s.contents, gone, s'.contents, c);
    }
  }

  /** If each client's counters have room for all its puts, the filters are exact and report every cached key
      throughout. */
  lemma {:induction false} StaysCovered(kv: KV, trace: seq<Snap>, requests: seq<Request>, replies: seq<Reply>, n: nat)
    requires IsRun(kv, trace, requests, replies) && n <= |requests| && trace[0].covered
    requires forall r :: r in requests ==> OwnKey(r)
    requires forall c: nat :: c < |trace[0].contents| ==> kv.FitsIn(c, trace[0].contents[c] + PutKeys(requests, c))
    ensures trace[n].covered && |trace[n].contents| == |trace[0].contents|
    ensures forall c: nat :: c < |trace[n].contents| ==>
      trace[n].contents[c] + PutKeys(requests[n..], c) <= trace[0].contents[c] + PutKeys(requests, c)
  {
    hide Stepped, KV.RoomIn, KV.FitsIn;
    if n == 0 {
      assert requests[0..] == requests;
    } else {
      StaysCovered(kv, trace, requests, replies, n - 1);
      var s, r, reply, s' := trace[n - 1], requests[n - 1], replies[n - 1], trace[n];
      assert Stepped(kv, s, r, reply, s') && r in requests;
      assert requests[n - 1..][1..] == requests[n..];
      CountStep(kv, s, r, reply, s', 0);
      forall c: nat | c < |s.contents|
        ensures s'.contents[c] + PutKeys(requests[n..], c) <= s.contents[c] + PutKeys(requests[n - 1..], c)
        ensures s.contents[c] + PutKey(r, c) <= trace[0].contents[c] + PutKeys(requests, c)
      {
        CountStep(kv, s, r, reply, s', c);
      }
      CoveredNext(kv, s, r, reply, s', if r.Put? && r.u.cid < |s.contents|
        then trace[0].contents[r.u.cid] + PutKeys(requests, r.u.cid) else multiset{});
    }
  }

  lemma CoveredNext(kv: KV, s: Snap, r: Request, reply: Reply, s': Snap, budget: multiset<Key>)
    requires Stepped(kv, s, r, reply, s') && s.covered && OwnKey(r)
    requires r.Put? && r.u.cid < |s.contents| ==>
      kv.FitsIn(r.u.cid, budget) && s.contents[r.u.cid] + multiset{r.key} <= budget
    ensures s'.covered
  {
    hide KV.FitsIn;
    if r.Put? && r.u.cid < |s.contents| { kv.RoomWithin(s.contents, r.u.cid, r.key, budget); }
  }

  ghost function In(s: Snap, c: nat, k: Key): nat {
    if k in s.cache && Cid(k) == c then 1 else 0
  }

  /** How often a put of the key was stored while the key was cached. */
  ghost function Again(trace: seq<Snap>, requests: seq<Request>, replies: seq<Reply>, n: nat, c: nat, k: Key): nat
    requires n <= |requests| == |replies| && |trace| == |requests| + 1
  {
    if n == 0 then 0
    else Again(trace, requests, replies, n - 1, c, k)
         + if CountedAgain(trace[n - 1], requests[n - 1], replies[n - 1], c, k) then 1 else 0
  }

  ghost predicate CountedAgain(s: Snap, r: Request, reply: Reply, c: nat, k: Key) {
    r.Put? && reply.Stored? && r.u.cid == c && r.key == k && k in s.cache
  }

  /** Every cached key has been counted by its client's filter. */
  ghost predicate Counts(s: Snap) {
    forall k :: k in s.cache && Cid(k) < |s.contents| ==> k in s.contents[Cid(k)]
  }

  ghost predicate SurplusOf(s: Snap, s': Snap, c: nat, k: Key, more: nat) {
    |s'.contents| == |s.contents| && c < |s.contents|
    && s'.contents[c][k] - In(s', c, k) == s.contents[c][k] - In(s, c, k) + more
  }

  lemma RecountedAt(contents: seq<multiset<Key>>, d: nat, key: Key, victim: Option<Key>, c: nat, k: Key)
    requires c < |contents| && victim != Some(key)
    requires victim == Some(k) && Cid(k) == c ==> k in contents[c]
    ensures var after := Recounted(contents, d, key, true, victim);
      && |after| == |contents|
      && after[c][k] == contents[c][k] + (if d == c && key == k then 1 else 0) - if victim == Some(k) && Cid(k) == c
           then 1 else 0
  {
    hide Cid;
    var less := if victim.Some? then WithoutKey(contents, Cid(victim.value), victim.value) else contents;
    assert less[c][k] == contents[c][k] - if victim == Some(k) && Cid(k) == c then 1 else 0;
  }

  lemma PutSurplus(kv: KV, s: Snap, r: Request, reply: Reply, s': Snap, c: nat, k: Key)
    requires r.Put? && PutStep(kv, s, r, reply, s') && s.covered && OwnKey(r)
    requires c < |s.contents| && s.contents[c][k] >= In(s, c, k)
    ensures SurplusOf(s, s', c, k, if CountedAgain(s, r, reply, c, k) then 1 else 0)
  {
    hide Starving, MadeRoom, Turned, Cid, Recounted;
    if reply.Stored? {
      var next, victim :| StoredBy(kv, s, r, s', next, victim);
      RecountedAt(s.contents, r.u.cid, r.key, victim, c, k);
    }
  }

  lemma RoundSurplus(kv: KV, s: Snap, r: Request, reply: Reply, s': Snap, c: nat, k: Key)
    requires r.Evict? && RoundStep(kv, s, r, reply, s') && s.covered
    requires c < |s.contents| && s.contents[c][k] >= In(s, c, k)
    ensures SurplusOf(s, s', c, k, 0)
  {
    hide NoneFound, Cid, FreeOf, ThldOf;
    if reply.RoundOver? {
      var gone :| RoundBy(kv, s, r, reply, s', gone);
    }
  }

  lemma SurplusStep(kv: KV, s: Snap, r: Request, reply: Reply, s': Snap, c: nat, k: Key)
    requires Stepped(kv, s, r, reply, s') && s.covered && OwnKey(r) && c < |s.contents|
    requires s.contents[c][k] >= In(s, c, k)
    ensures SurplusOf(s, s', c, k, if CountedAgain(s, r, reply, c, k) then 1 else 0)
  {
    hide Keeps, PutStep, RoundStep, Turned, Cid;
    if r.Put? {
      PutSurplus(kv, s, r, reply, s', c, k);
    } else if r.Evict? {
      RoundSurplus(kv, s, r, reply, s', c, k);
    }
  }

  /** What a filter has counted beyond its client's cached keys grows by one with each put stored while its key
      was cached, and never otherwise changes. */
  lemma {:induction false} Surplus(kv: KV, trace: seq<Snap>, requests: seq<Request>, replies: seq<Reply>, n: nat,
                                   c: nat, k: Key)
    requires IsRun(kv, trace, requests, replies) && n <= |requests| && c < |trace[0].contents| && Counts(trace[0])
    requires forall r :: r in requests ==> OwnKey(r)
    requires forall i :: 0 <= i < n ==> trace[i].covered
    ensures |trace[n].contents| == |trace[0].contents|
    ensures trace[n].contents[c][k] - In(trace[n], c, k) ==
      trace[0].contents[c][k] - In(trace[0], c, k) + Again(trace, requests, replies, n, c, k)
  {
    hide Stepped;
    if n > 0 {
      Surplus(kv, trace, requests, replies, n - 1, c, k);
      assert Stepped(kv, trace[n - 1], requests[n - 1], replies[n - 1], trace[n]) && requests[n - 1] in requests;
      SurplusStep(kv, trace[n - 1], requests[n - 1], replies[n - 1], trace[n], c, k);
    }
  }

  lemma {:induction false} AgainIff(trace: seq<Snap>, requests: seq<Request>, replies: seq<Reply>, n: nat, c: nat,
                                    k: Key)
    requires n <= |requests| == |replies| && |trace| == |requests| + 1
    ensures Again(trace, requests, replies, n, c, k) == 0 <==>
      forall i :: 0 <= i < n ==> !CountedAgain(trace[i], requests[i], replies[i], c, k)
  {
    if n > 0 { AgainIff(trace, requests, replies, n - 1, c, k); }
  }

  lemma {:induction false} SameFilters(kv: KV, trace: seq<Snap>, requests: seq<Request>, replies: seq<Reply>, n: nat)
    requires IsRun(kv, trace, requests, replies) && n <= |requests|
    requires forall r :: r in requests ==> OwnKey(r)
    requires forall i :: 0 <= i < n ==> trace[i].covered
    ensures |trace[n].contents| == |trace[0].contents|
  {
    hide Stepped;
    if n > 0 {
      SameFilters(kv, trace, requests, replies, n - 1);
      assert Stepped(kv, trace[n - 1], requests[n - 1], replies[n - 1], trace[n]) && requests[n - 1] in requests;
      CountStep(kv, trace[n - 1], requests[n - 1], replies[n - 1], trace[n], 0);
    }
  }

  /** A put was stored while its key was cached. */
  ghost predicate PutAgain(s: Snap, r: Request, reply: Reply) {
    r.Put? && reply.Stored? && r.key in s.cache && r.u.cid < |s.contents|
  }

  /** The filters count exactly the cached keys, each once. */
  ghost predicate CountsExactly(s: Snap) {
    forall c: nat, k :: c < |s.contents| ==> s.contents[c][k] == In(s, c, k)
  }

  /** From a state where they do, the filters count exactly the cached keys if and only if no put was stored
      while its key was cached. */
  lemma {:induction false} CountsExactlyIff(kv: KV, trace: seq<Snap>, requests: seq<Request>, replies: seq<Reply>,
                                            n: nat)
    requires IsRun(kv, trace, requests, replies) && n <= |requests| && CountsExactly(trace[0])
    requires forall r :: r in requests ==> OwnKey(r)
    requires forall i :: 0 <= i < n ==> trace[i].covered
    ensures CountsExactly(trace[n]) <==>
      forall i :: 0 <= i < n ==> !PutAgain(trace[i], requests[i], replies[i])
  {
    hide Stepped;
    assert Counts(trace[0]);
    SameFilters(kv, trace, requests, replies, n);
    forall c: nat, k | c < |trace[0].contents|
      ensures trace[n].contents[c][k] == In(trace[n], c, k) <==>
        forall i :: 0 <= i < n ==> !CountedAgain(trace[i], requests[i], replies[i], c, k)
    {
      Surplus(kv, trace, requests, replies, n, c, k);
      assert trace[0].contents[c][k] == In(trace[0], c, k);
      AgainIff(trace, requests, replies, n, c, k);
    }
    if i :| 0 <= i < n && PutAgain(trace[i], requests[i], replies[i]) {
      SameFilters(kv, trace, requests, replies, i);
      assert CountedAgain(trace[i], requests[i], replies[i], requests[i].u.cid, requests[i].key);
      assert trace[n].contents[requests[i].u.cid][requests[i].key] != In(trace[n], requests[i].u.cid, requests[i].key);
    } else {
      forall c: nat, k, i | c < |trace[n].contents| && 0 <= i < n
        ensures !CountedAgain(trace[i], requests[i], replies[i], c, k)
      {
        SameFilters(kv, trace, requests, replies, i);
        assert !PutAgain(trace[i], requests[i], replies[i]);
      }
    }
  }

  // ---- Together ----

  /** What the first state and the requests of a run say of its replies and states. */
  lemma RunKeeps(kv: KV, trace: seq<Snap>, requests: seq<Request>, replies: seq<Reply>)
    requires IsRun(kv, trace, requests, replies)
    ensures forall n :: 0 <= n < |requests| && !requests[n].Evict? ==>
      (replies[n] == Unserved <==> !ReadyBy(FlagsAfter(Flags(trace[0].posted), requests[..n]), requests[n]))
    ensures trace[0].accurate && (forall r :: r in requests ==> OwnKey(r)) ==> trace[|requests|].accurate
    ensures trace[0].covered && (forall r :: r in requests ==> OwnKey(r))
      && (forall c: nat :: c < |trace[0].contents| ==> kv.FitsIn(c, trace[0].contents[c] + PutKeys(requests, c)))
      ==> forall n: nat :: n <= |requests| ==> trace[n].covered
  {
    hide Stepped, ReadyBy, FlagsAfter, Flags, OwnKey, KV.FitsIn, PutKeys;
    forall n: nat | n < |requests| && !requests[n].Evict?
      ensures replies[n] == Unserved <==> !ReadyBy(FlagsAfter(Flags(trace[0].posted), requests[..n]), requests[n])
    {
      ServedIff(kv, trace, requests, replies, n);
    }
    if forall r :: r in requests ==> OwnKey(r) {
      if trace[0].accurate { StaysAccurate(kv, trace, requests, replies, |requests|); }
      if trace[0].covered
        && forall c: nat :: c < |trace[0].contents| ==> kv.FitsIn(c, trace[0].contents[c] + PutKeys(requests, c)) {
        forall n: nat | n <= |requests| ensures trace[n].covered {
          StaysCovered(kv, trace, requests, replies, n);
        }
      }
    }
  }
}
