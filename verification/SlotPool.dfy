/** The pool of page slots: one free list per client queue, wrapped byte counters, and borrowing between
    clients. Each free list is the atomic stack that LockFreeStack refines. */
module SlotPool {
  import opened Types
  import opened Arith

  const PAGE_SIZE: nat := 4096
  const SLOT_SIZE: nat := 4104

  /** No address is on two lists, or twice on one. */
  ghost predicate Separate(lists: seq<seq<Addr>>) {
    && (forall f :: 0 <= f < |lists| ==> Distinct(lists[f]))
    && (forall f, g, a :: 0 <= f < |lists| && 0 <= g < |lists| && a in lists[f] && a in lists[g] ==> f == g)
  }

  ghost predicate OnSome(lists: seq<seq<Addr>>, a: Addr) {
    exists f :: 0 <= f < |lists| && a in lists[f]
  }

  /** The chunks are exactly the addresses handed out and the addresses on the lists. */
  ghost predicate Accounted(chunks: set<Addr>, out: map<Addr, nat>, lists: seq<seq<Addr>>) {
    && out.Keys <= chunks
    && (forall f, a :: 0 <= f < |lists| && a in lists[f] ==> a in chunks && a !in out)
    && (forall a :: a in chunks ==> a in out || OnSome(lists, a))
  }

  lemma AloneAccounted(chunks: set<Addr>, out: map<Addr, nat>, lists: seq<seq<Addr>>)
    requires Accounted(chunks, out, lists) && |lists| == 1
    ensures lists[0] == [] <==> |out| == |chunks|
  {
    if lists[0] == [] {
      assert forall a :: !OnSome(lists, a);
      assert out.Keys == chunks;
    } else {
      var a := lists[0][0];
      assert a in lists[0];
      SubsetSize(out.Keys, chunks - {a});
    }
  }

  lemma PopSeparate(lists: seq<seq<Addr>>, f: nat, chunks: set<Addr>, out: map<Addr, nat>, c: nat)
    requires Separate(lists) && Accounted(chunks, out, lists) && f < |lists| && lists[f] != []
    ensures var lists' := lists[f := lists[f][1..]]; var a := lists[f][0];
      Separate(lists') && Accounted(chunks, out[a := c], lists') && a !in out && a in chunks
  {
    var a, rest := lists[f][0], lists[f][1..];
    var lists' := lists[f := rest];
    assert a in lists[f];
    assert forall b :: b in rest ==> b in lists[f] && b != a;
    forall b | b in chunks && b !in out && b != a ensures OnSome(lists', b) {
      var g :| 0 <= g < |lists| && b in lists[g];
      if g == f {
        var i :| 0 <= i < |lists[f]| && lists[f][i] == b;
        assert rest[i - 1] == b;
      }
      assert b in lists'[g];
    }
  }

  lemma PushSeparate(lists: seq<seq<Addr>>, f: nat, chunks: set<Addr>, out: map<Addr, nat>, a: Addr)
    requires Separate(lists) && Accounted(chunks, out, lists) && f < |lists| && a in out
    ensures var lists' := lists[f := [a] + lists[f]];
      Separate(lists') && Accounted(chunks, out - {a}, lists')
    ensures |lists[f]| < |chunks|
  {
    var more := [a] + lists[f];
    var lists' := lists[f := more];
    assert forall b :: b in more ==> b == a || b in lists[f];
    forall b | b in chunks && b !in out - {a} ensures OnSome(lists', b) {
      if b == a {
        assert a in lists'[f];
      } else {
        var g :| 0 <= g < |lists| && b in lists[g];
        assert b in lists'[g];
      }
    }
    DistinctFits(more, chunks);
  }

  /** Moving the top of one list to another. */
  lemma MoveSeparate(lists: seq<seq<Addr>>, f: nat, g: nat, chunks: set<Addr>, out: map<Addr, nat>)
    requires Separate(lists) && Accounted(chunks, out, lists) && f < |lists| && g < |lists| && f != g && lists[f] != []
    ensures var lists' := lists[f := lists[f][1..]][g := [lists[f][0]] + lists[g]];
      Separate(lists') && Accounted(chunks, out, lists')
    ensures |lists[g]| < |chunks|
  {
    var a := lists[f][0];
    PopSeparate(lists, f, chunks, out, 0);
    PushSeparate(lists[f := lists[f][1..]], g, chunks, out[a := 0], a);
    assert out[a := 0] - {a} == out;
  }

  // ---- Accounting ----

  /** The slots handed out to a client and not yet returned. */
  ghost function Holding(out: map<Addr, nat>, c: nat): set<Addr> {
    set a | a in out && out[a] == c
  }

  /** For every list, allocs - useds modulo 2^64 is the bytes on it. */
  ghost predicate Balanced(allocs: seq<nat>, useds: seq<nat>, lists: seq<seq<Addr>>) {
    && |allocs| == |lists| == |useds|
    && (forall f :: 0 <= f < |lists| ==> allocs[f] < WORD && useds[f] < WORD)
    && (forall f :: 0 <= f < |lists| ==> Sub(allocs[f], useds[f]) == SLOT_SIZE * |lists[f]|)
  }

  ghost predicate Usage(useds: seq<nat>, out: map<Addr, nat>, n: nat, p: nat)
    requires |useds| == n * p
  {
    forall c: nat :: c < n ==> ClientSum(useds, c, n, p) % WORD == SLOT_SIZE * |Holding(out, c)|
  }

  function ClientSum(words: seq<nat>, c: nat, n: nat, p: nat): nat
    requires |words| == n * p && c < n
  {
    if p == 0 then 0 else FlBound(c, 0, n, p); Sum(words, Fl(c, 0, p), Fl(c, p, p))
  }

  // ---- What the counters of several lists add up to ----

  /** The slots on the lists of [lo, hi). */
  ghost function SlotsOn(lists: seq<seq<Addr>>, lo: nat, hi: nat): nat
    requires lo <= hi <= |lists|
    decreases hi
  {
    if lo == hi then 0 else SlotsOn(lists, lo, hi - 1) + |lists[hi - 1]|
  }

  ghost function AddrsOn(lists: seq<seq<Addr>>, lo: nat, hi: nat): set<Addr>
    requires lo <= hi <= |lists|
  {
    set f, a | lo <= f < hi && a in lists[f] :: a
  }

  lemma AddrsNext(lists: seq<seq<Addr>>, lo: nat, hi: nat)
    requires Separate(lists) && lo < hi <= |lists|
    ensures var l := lists[hi - 1]; var last := set a | a in l;
      AddrsOn(lists, lo, hi) == AddrsOn(lists, lo, hi - 1) + last && AddrsOn(lists, lo, hi - 1) !! last
  {
  }

  lemma {:induction false} SlotsCount(lists: seq<seq<Addr>>, lo: nat, hi: nat)
    requires Separate(lists) && lo <= hi <= |lists|
    ensures SlotsOn(lists, lo, hi) == |AddrsOn(lists, lo, hi)|
    decreases hi
  {
    if lo < hi {
      SlotsCount(lists, lo, hi - 1);
      var l := lists[hi - 1];
      var last := set a | a in l;
      DistinctCovers(l, last);
      AddrsNext(lists, lo, hi);
      hide AddrsOn;
    } else {
      assert AddrsOn(lists, lo, hi) == {};
    }
  }

  lemma SlotsFit(lists: seq<seq<Addr>>, chunks: set<Addr>, out: map<Addr, nat>, lo: nat, hi: nat)
    requires Separate(lists) && Accounted(chunks, out, lists) && lo <= hi <= |lists|
    ensures SlotsOn(lists, lo, hi) <= |chunks|
  {
    SlotsCount(lists, lo, hi);
    var on := AddrsOn(lists, lo, hi);
    assert chunks == on + (chunks - on);
  }

  /** The wrapped difference of two sums of counters is the bytes on the lists. */
  lemma {:induction false} SumBalanced(allocs: seq<nat>, useds: seq<nat>, lists: seq<seq<Addr>>, lo: nat, hi: nat)
    returns (k: int)
    requires Balanced(allocs, useds, lists) && lo <= hi <= |lists|
    ensures Sum(allocs, lo, hi) - Sum(useds, lo, hi) == SLOT_SIZE * SlotsOn(lists, lo, hi) + k * WORD
    decreases hi
  {
    if lo == hi {
      k := 0;
    } else {
      k := SumBalanced(allocs, useds, lists, lo, hi - 1);
      var a: int, u: int := allocs[hi - 1], useds[hi - 1];
      assert Sub(allocs[hi - 1], useds[hi - 1]) == SLOT_SIZE * |lists[hi - 1]|;
      k := k + (a - u) / WORD;
    }
  }

  lemma {:induction false} SumWithin(s: seq<nat>, lo: nat, hi: nat)
    requires lo <= hi <= |s|
    ensures Sum(s, lo, hi) <= Sum(s, 0, |s|)
    decreases |s| - hi, lo
  {
    if hi < |s| {
      SumWithin(s, lo, hi + 1);
    } else if lo > 0 {
      SumWithin(s, lo - 1, hi);
      SumFront(s, lo - 1, hi);
    }
  }

  lemma {:induction false} SumFront(s: seq<nat>, lo: nat, hi: nat)
    requires lo < hi <= |s|
    ensures Sum(s, lo, hi) == s[lo] + Sum(s, lo + 1, hi)
    decreases hi
  {
    if lo + 1 < hi { SumFront(s, lo, hi - 1); }
  }

  lemma ClientSumUpdate(words: seq<nat>, c: nat, q: nat, d: nat, n: nat, p: nat, v: nat)
    requires |words| == n * p && c < n && d < n && q < p && Fl(c, q, p) < n * p
    ensures ClientSum(words[Fl(c, q, p) := v], d, n, p) ==
      ClientSum(words, d, n, p) + (if c == d then v - words[Fl(c, q, p)] else 0)
  {
    FlBound(d, 0, n, p);
    FlOwner(c, q, d, p);
    SumUpdate(words, Fl(d, 0, p), Fl(d, p, p), Fl(c, q, p), v);
  }

  lemma ClientSumHas(words: seq<nat>, c: nat, q: nat, n: nat, p: nat)
    requires |words| == n * p && c < n && q < p && Fl(c, q, p) < n * p
    ensures words[Fl(c, q, p)] <= ClientSum(words, c, n, p)
  {
    FlBound(c, 0, n, p);
    SumHas(words, Fl(c, 0, p), Fl(c, p, p), Fl(c, q, p));
  }

  lemma HoldingFits(chunks: set<Addr>, out: map<Addr, nat>, c: nat)
    requires out.Keys <= chunks
    ensures |Holding(out, c)| <= |chunks|
  {
    SubsetSize(Holding(out, c), chunks);
  }

  lemma {:induction false} SubsetSize(s: set<Addr>, t: set<Addr>)
    requires s <= t
    ensures |s| <= |t|
  {
    if s != {} {
      var a :| a in s;
      SubsetSize(s - {a}, t - {a});
    }
  }

  /** Handing a slot out to c on any of its lists keeps per-client usage exact. */
  lemma UsageTake(useds: seq<nat>, out: map<Addr, nat>, chunks: set<Addr>, a: Addr, c: nat, q: nat, n: nat, p: nat)
    requires |useds| == n * p && c < n && q < p && Fl(c, q, p) < n * p
    requires out.Keys <= chunks && a in chunks && a !in out && SLOT_SIZE * |chunks| < WORD
    requires Usage(useds, out, n, p)
    ensures Usage(useds[Fl(c, q, p) := Add(useds[Fl(c, q, p)], SLOT_SIZE)], out[a := c], n, p)
  {
    var f := Fl(c, q, p);
    var useds', out' := useds[f := Add(useds[f], SLOT_SIZE)], out[a := c];
    forall d: nat | d < n ensures ClientSum(useds', d, n, p) % WORD == SLOT_SIZE * |Holding(out', d)| {
      ClientSumUpdate(useds, c, q, d, n, p, Add(useds[f], SLOT_SIZE));
      HoldingFits(chunks, out', d);
      if d == c {
        assert Holding(out', d) == Holding(out, d) + {a};
        ClientSumHas(useds, c, q, n, p);
        SumShift(ClientSum(useds, d, n, p), useds[f], SLOT_SIZE, SLOT_SIZE * |Holding(out, d)|);
      } else {
        assert Holding(out', d) == Holding(out, d);
      }
    }
  }

  /** Returning it with the client it was handed to, on any of that client's lists, does too. */
  lemma UsageReturn(useds: seq<nat>, out: map<Addr, nat>, chunks: set<Addr>, a: Addr, c: nat, q: nat, n: nat, p: nat)
    requires |useds| == n * p && c < n && q < p && Fl(c, q, p) < n * p
    requires out.Keys <= chunks && a in out && out[a] == c && SLOT_SIZE * |chunks| < WORD
    requires Usage(useds, out, n, p)
    ensures Usage(useds[Fl(c, q, p) := Sub(useds[Fl(c, q, p)], SLOT_SIZE)], out - {a}, n, p)
  {
    var f := Fl(c, q, p);
    var useds', out' := useds[f := Sub(useds[f], SLOT_SIZE)], out - {a};
    forall d: nat | d < n ensures ClientSum(useds', d, n, p) % WORD == SLOT_SIZE * |Holding(out', d)| {
      ClientSumUpdate(useds, c, q, d, n, p, Sub(useds[f], SLOT_SIZE));
      if d == c {
        assert a in Holding(out, d) && Holding(out', d) == Holding(out, d) - {a};
        ClientSumHas(useds, c, q, n, p);
        SumUnshift(ClientSum(useds, d, n, p), useds[f], SLOT_SIZE, SLOT_SIZE * |Holding(out, d)|);
      } else {
        assert Holding(out', d) == Holding(out, d);
      }
    }
  }

  /** A slot leaves list f and its used bytes go up, possibly wrapping. */
  lemma BalancedTake(allocs: seq<nat>, useds: seq<nat>, lists: seq<seq<Addr>>, f: nat)
    requires Balanced(allocs, useds, lists) && f < |lists| && lists[f] != []
    ensures Balanced(allocs, useds[f := Add(useds[f], SLOT_SIZE)], lists[f := lists[f][1..]])
  {
  }

  /** A slot joins list f, whichever list it was taken from, and its used bytes go down, possibly wrapping. */
  lemma BalancedReturn(allocs: seq<nat>, useds: seq<nat>, lists: seq<seq<Addr>>, f: nat, a: Addr)
    requires Balanced(allocs, useds, lists) && f < |lists| && SLOT_SIZE * (|lists[f]| + 1) < WORD
    ensures Balanced(allocs, useds[f := Sub(useds[f], SLOT_SIZE)], lists[f := [a] + lists[f]])
  {
  }

  /** A borrow moves a slot and its allocation together. */
  lemma BalancedBorrow(allocs: seq<nat>, useds: seq<nat>, lists: seq<seq<Addr>>, f: nat, g: nat)
    requires Balanced(allocs, useds, lists) && f < |lists| && g < |lists| && f != g && lists[f] != []
    requires SLOT_SIZE * (|lists[g]| + 1) < WORD && allocs[f] >= SLOT_SIZE && allocs[g] + SLOT_SIZE < WORD
    ensures Balanced(allocs[f := allocs[f] - SLOT_SIZE][g := allocs[g] + SLOT_SIZE], useds,
                     lists[f := lists[f][1..]][g := [lists[f][0]] + lists[g]])
  {
  }

  /** In a borrow both counters stay in range, because their sum does. */
  lemma BorrowRoom(allocs: seq<nat>, f: nat, g: nat)
    requires f < |allocs| && g < |allocs| && f != g && Sum(allocs, 0, |allocs|) < WORD && allocs[f] >= SLOT_SIZE
    ensures allocs[g] + SLOT_SIZE < WORD
    ensures Sum(allocs[f := allocs[f] - SLOT_SIZE][g := allocs[g] + SLOT_SIZE], 0, |allocs|) == Sum(allocs, 0, |allocs|)
  {
    var less := allocs[f := allocs[f] - SLOT_SIZE];
    SumUpdate(allocs, 0, |allocs|, f, allocs[f] - SLOT_SIZE);
    SumHas(less, 0, |less|, g);
    SumUpdate(less, 0, |less|, g, allocs[g] + SLOT_SIZE);
  }

  /** Everything the pool keeps, across a borrow. */
  lemma BorrowKeeps(allocs: seq<nat>, allocs': seq<nat>, useds: seq<nat>, lists: seq<seq<Addr>>,
                    lists': seq<seq<Addr>>, chunks: set<Addr>, out: map<Addr, nat>, maxChunks: nat, f: nat, g: nat)
    requires Balanced(allocs, useds, lists) && Separate(lists) && Accounted(chunks, out, lists)
    requires |chunks| <= maxChunks && SLOT_SIZE * maxChunks < WORD && Sum(allocs, 0, |allocs|) < WORD
    requires f < |lists| && g < |lists| && f != g && lists[f] != [] && allocs[f] >= SLOT_SIZE
    requires allocs' == allocs[f := allocs[f] - SLOT_SIZE][g := allocs[g] + SLOT_SIZE]
    requires lists' == lists[f := lists[f][1..]][g := [lists[f][0]] + lists[g]]
    ensures |lists[g]| < maxChunks && lists[f][0] in chunks
    ensures Balanced(allocs', useds, lists') && Separate(lists') && Accounted(chunks, out, lists')
    ensures Sum(allocs', 0, |allocs'|) == Sum(allocs, 0, |allocs|)
  {
    assert lists[f][0] in lists[f];
    MoveSeparate(lists, f, g, chunks, out);
    BorrowRoom(allocs, f, g);
    BalancedBorrow(allocs, useds, lists, f, g);
  }

  // ---- The constructor's layout ----

  function SlotAddr(start: nat, k: nat): Addr {
    start + k * SLOT_SIZE
  }

  /** The n consecutive slots from the k-th. */
  function Run(start: nat, k: nat, n: nat): seq<Addr> {
    seq<Addr>(n, j requires 0 <= j < n => SlotAddr(start, k + j))
  }

  ghost function Chunks(start: nat, n: nat): set<Addr> {
    set k: nat | k < n :: SlotAddr(start, k)
  }

  lemma {:induction false} ChunksFit(start: nat, n: nat)
    ensures |Chunks(start, n)| == n
  {
    if n > 0 {
      ChunksFit(start, n - 1);
      assert Chunks(start, n) == Chunks(start, n - 1) + {SlotAddr(start, n - 1)};
    }
  }

  /** All the slots of the layout lie inside the pool's memory. */
  lemma LayoutRoom(mem: nat, total: nat, init: nat)
    requires total > 0 && init == mem / SLOT_SIZE / total
    ensures init <= total * init <= mem / SLOT_SIZE
    ensures SLOT_SIZE * (total * init) <= SLOT_SIZE * (mem / SLOT_SIZE) <= mem
    ensures SLOT_SIZE * init * total == SLOT_SIZE * (total * init)
  {
    var m := mem / SLOT_SIZE;
    assert m == init * total + m % total;
    MulMonotone(1, total, init);
  }

  /** Run f of the layout ends before run g begins. */
  lemma RunsOrdered(f: nat, g: nat, init: nat, j: nat)
    requires j < init
    ensures f < g ==> f * init + j < g * init
  {
    MulNext(f, init);
    MulMonotone(f + 1, g, init);
  }

  function Share(m: nat, total: nat): (each: nat)
    requires total > 0
    ensures each * total <= m < (each + 1) * total
  {
    MulNext(m / total, total);
    m / total
  }

  /** The slots each list starts with. */
  function InitChunks(mem: nat, n: nat, p: nat): (init: nat)
    requires n > 0 && p > 0
    ensures init * (n * p) <= mem / SLOT_SIZE < (init + 1) * (n * p)
  {
    MulMonotone(1, n, p);
    Share(mem / SLOT_SIZE, n * p)
  }

  ghost predicate AllAlike(words: seq<nat>, w: nat) {
    forall f :: 0 <= f < |words| ==> words[f] == w
  }

  /** Every slot lies in the memory registered for the pool. */
  ghost predicate Within(chunks: set<Addr>, start: nat, mem: nat) {
    forall a :: a in chunks ==> start <= a && a + SLOT_SIZE <= start + mem
  }

  /** The slots of the whole pool. */
  function InitSlots(mem: nat, n: nat, p: nat): nat
    requires n > 0 && p > 0
  {
    n * p * InitChunks(mem, n, p)
  }

  ghost predicate LaidOut(start: nat, init: nat, lists: seq<seq<Addr>>) {
    forall f: nat :: f < |lists| ==> lists[f] == Run(start, f * init, init)
  }

  lemma RunDistinct(start: nat, k: nat, n: nat)
    ensures Distinct(Run(start, k, n))
  {
    var run := Run(start, k, n);
    forall i, j | 0 <= i < j < n ensures run[i] != run[j] {
      assert run[i] == SlotAddr(start, k + i) && run[j] == SlotAddr(start, k + j);
    }
  }

  lemma LayoutSeparate(start: nat, init: nat, lists: seq<seq<Addr>>)
    requires LaidOut(start, init, lists)
    ensures Separate(lists)
  {
    forall f: nat | f < |lists| ensures Distinct(lists[f]) { RunDistinct(start, f * init, init); }
    forall f: nat, g: nat, a | f < |lists| && g < |lists| && a in lists[f] && a in lists[g] ensures f == g {
      RunsApart(start, f, g, init, a);
    }
  }

  lemma RunsApart(start: nat, f: nat, g: nat, init: nat, a: Addr)
    requires a in Run(start, f * init, init) && a in Run(start, g * init, init)
    ensures f == g
  {
    var j := RunIndex(start, f * init, init, a);
    var k := RunIndex(start, g * init, init, a);
    RunsOrdered(f, g, init, j);
    RunsOrdered(g, f, init, k);
  }

  lemma RunIndex(start: nat, k: nat, n: nat, a: Addr) returns (j: nat)
    requires a in Run(start, k, n)
    ensures j < n && a == SlotAddr(start, k + j)
  {
    var run := Run(start, k, n);
    var i :| 0 <= i < |run| && run[i] == a;
    j := i;
  }

  lemma RunInChunks(start: nat, f: nat, total: nat, init: nat, a: Addr)
    requires f < total && a in Run(start, f * init, init)
    ensures a in Chunks(start, total * init)
  {
    var j := RunIndex(start, f * init, init, a);
    RunsOrdered(f, total, init, j);
  }

  lemma ChunkOnRun(start: nat, total: nat, init: nat, a: Addr) returns (f: nat)
    requires a in Chunks(start, total * init)
    ensures f < total && a in Run(start, f * init, init)
  {
    var k: nat :| k < total * init && a == SlotAddr(start, k);
    var j;
    f, j := ListOfSlot(k, total, init);
    assert Run(start, f * init, init)[j] == a;
  }

  lemma LayoutAccounted(start: nat, init: nat, lists: seq<seq<Addr>>)
    requires LaidOut(start, init, lists)
    ensures Accounted(Chunks(start, |lists| * init), map[], lists)
  {
    hide Run, Chunks;
    var n := |lists| * init;
    forall f: nat, a | f < |lists| && a in lists[f] ensures a in Chunks(start, n) {
      RunInChunks(start, f, |lists|, init, a);
    }
    forall a | a in Chunks(start, n) ensures OnSome(lists, a) {
      var f := ChunkOnRun(start, |lists|, init, a);
      assert a in lists[f];
    }
  }

  lemma ListOfSlot(k: nat, total: nat, init: nat) returns (f: nat, j: nat)
    requires k < total * init
    ensures f < total && j < init && f * init + j == k
  {
    assert init > 0;
    f, j := k / init, k % init;
    MulMonotone(total, f, init);
  }

  lemma {:induction false} SumEqual(s: seq<nat>, lo: nat, hi: nat, v: nat)
    requires lo <= hi <= |s| && forall i :: lo <= i < hi ==> s[i] == v
    ensures Sum(s, lo, hi) == v * (hi - lo)
    decreases hi
  {
    if lo < hi { SumEqual(s, lo, hi - 1, v); }
  }

  /** What the finished loop has built. */
  lemma LayoutValid(start: nat, mem: nat, total: nat, init: nat, lists: seq<seq<Addr>>, allocs: seq<nat>,
                    useds: seq<nat>)
    requires total > 0 && init == mem / SLOT_SIZE / total && |lists| == |allocs| == |useds| == total
    requires start > 0 && start + mem < WORD
    requires LaidOut(start, init, lists)
    requires forall f :: 0 <= f < |lists| ==> allocs[f] == SLOT_SIZE * init && useds[f] == 0
    ensures var chunks := Chunks(start, total * init);
      && Balanced(allocs, useds, lists) && Separate(lists) && Accounted(chunks, map[], lists)
      && |chunks| <= mem / SLOT_SIZE && SLOT_SIZE * (mem / SLOT_SIZE) < WORD
      && Within(chunks, start, mem)
      && Sum(allocs, 0, |allocs|) == SLOT_SIZE * init * total < WORD
  {
    LayoutRoom(mem, total, init);
    LayoutSeparate(start, init, lists);
    LayoutAccounted(start, init, lists);
    ChunksFit(start, total * init);
    SumEqual(allocs, 0, total, SLOT_SIZE * init);
  }

  lemma LayoutUsage(useds: seq<nat>, n: nat, p: nat)
    requires |useds| == n * p && p > 0 && forall f :: 0 <= f < |useds| ==> useds[f] == 0
    ensures Usage(useds, map[], n, p)
  {
    forall c: nat | c < n ensures ClientSum(useds, c, n, p) == 0 && Holding(map[], c) == {} {
      FlBound(c, 0, n, p);
      SumEqual(useds, Fl(c, 0, p), Fl(c, p, p), 0);
    }
  }

  // ---- The pool ----

  class PerCPUPool {
    const numClients: nat
    const perCli: nat
    const minFlAlloc: nat
    const minFlFree: nat
    const maxChunks: nat
    const allocs: array<nat>
    const useds: array<nat>
    const lists: array<seq<Addr>>
    ghost const chunks: set<Addr>
    ghost const totalAlloc: nat
    /** The slots handed out and the client each was handed to. */
    ghost var out: map<Addr, nat>

    ghost predicate Valid()
      reads this, allocs, useds, lists
    {
      && numClients > 0 && perCli > 0
      && lists.Length == numClients * perCli
      && allocs != useds
      && Balanced(allocs[..], useds[..], lists[..])
      && Separate(lists[..]) && Accounted(chunks, out, lists[..])
      && |chunks| <= maxChunks && SLOT_SIZE * maxChunks < WORD
      && (forall a :: a in chunks ==> 0 < a < WORD - 1)
      && Sum(allocs[..], 0, allocs.Length) == totalAlloc < WORD
    }

    /** No slot handed out has the null address, or the one that says there is none. */
    lemma OutNotNull()
      requires Valid()
      ensures forall a :: a in out ==> a != NONE && a != BAD
    {
    }

    /** Per-client usage is exact: GetClientUsed is the bytes of the slots handed out to that client. */
    ghost predicate UsageExact()
      reads this, useds
    {
      useds.Length == numClients * perCli && Usage(useds[..], out, numClients, perCli)
    }

    /** Every slot lies on one list, in address order, and each list's allocation is its bytes. */
    constructor (startAddr: nat, memPoolSize: nat, numClients: nat, perCli: nat)
      requires numClients > 0 && perCli > 0 && startAddr > 0 && startAddr + memPoolSize < WORD
      ensures Valid() && UsageExact() && out == map[]
      ensures this.numClients == numClients && this.perCli == perCli
      ensures fresh(allocs) && fresh(useds) && fresh(lists)
      ensures chunks == Chunks(startAddr, InitSlots(memPoolSize, numClients, perCli))
      ensures var init := InitChunks(memPoolSize, numClients, perCli);
        && LaidOut(startAddr, init, lists[..]) && AllAlike(allocs[..], SLOT_SIZE * init)
        && minFlAlloc == init * SLOT_SIZE * 10 / 100 && minFlFree == init * SLOT_SIZE * 5 / 100
      ensures Within(chunks, startAddr, memPoolSize)
    {
      var total := numClients * perCli;
      MulMonotone(1, numClients, perCli);
      var init := InitChunks(memPoolSize, numClients, perCli);
      this.numClients := numClients;
      this.perCli := perCli;
      this.maxChunks := memPoolSize / SLOT_SIZE;
      this.minFlAlloc := init * SLOT_SIZE * 10 / 100;
      this.minFlFree := init * SLOT_SIZE * 5 / 100;
      this.chunks := Chunks(startAddr, total * init);
      this.totalAlloc := SLOT_SIZE * init * total;
      this.out := map[];
      this.allocs := new nat[total](_ => 0);
      this.useds := new nat[total](_ => 0);
      this.lists := new seq<Addr>[total](_ => []);
      new;
      var addr := startAddr;
      ghost var base := 0;
      for i := 0 to total
        invariant base == i * init && addr == SlotAddr(startAddr, base)
        invariant allocs.Length == lists.Length == useds.Length == total && out == map[]
        invariant forall f :: 0 <= f < total ==> useds[f] == 0
        invariant forall f :: 0 <= f < i ==> lists[f] == Run(startAddr, f * init, init) && allocs[f] == SLOT_SIZE * init
        invariant forall f :: i <= f < total ==> lists[f] == [] && allocs[f] == 0
      {
        FillList(i, addr, init, startAddr, base);
        MulNext(i, init);
        base := base + init;
        addr := addr + init * SLOT_SIZE;
      }
      LayoutValid(startAddr, memPoolSize, total, init, lists[..], allocs[..], useds[..]);
      LayoutUsage(useds[..], numClients, perCli);
    }

    /** The constructor's inner loop: push the list's slots from the highest address down. */
    method FillList(i: nat, addr: Addr, chunks: nat, ghost start: nat, ghost base: nat)
      requires i < lists.Length == allocs.Length && addr == SlotAddr(start, base)
      requires lists[i] == [] && allocs[i] == 0
      modifies lists, allocs
      ensures lists[..] == old(lists[..])[i := Run(start, base, chunks)]
      ensures allocs[..] == old(allocs[..])[i := SLOT_SIZE * chunks]
    {
      var j := chunks;
      while j > 0
        invariant 0 <= j <= chunks
        invariant forall f :: 0 <= f < lists.Length && f != i ==>
          lists[f] == old(lists[f]) && allocs[f] == old(allocs[f])
        invariant lists[i] == Run(start, base + j, chunks - j) && allocs[i] == SLOT_SIZE * (chunks - j)
      {
        j := j - 1;
        assert addr + j * SLOT_SIZE == SlotAddr(start, base + j);
        lists[i] := [addr + j * SLOT_SIZE] + lists[i];
        allocs[i] := allocs[i] + SLOT_SIZE;
      }
    }

    // ---- One list ----

    method GetFreeAddr(fl: nat) returns (addr: Option<Addr>)
      requires fl < lists.Length
      modifies lists
      ensures addr == if old(lists[fl]) == [] then None else Some(old(lists[fl])[0])
      ensures lists[..] == if addr.None? then old(lists[..]) else old(lists[..])[fl := old(lists[fl])[1..]]
    {
      if lists[fl] == [] {
        return None;
      }
      addr := Some(lists[fl][0]);
      lists[fl] := lists[fl][1..];
    }

    /** A push fails when the list's nodes are used up, and the failure is ignored. */
    method PutFreeAddr(fl: nat, addr: Addr)
      requires fl < lists.Length && addr != WORD - 1
      modifies lists
      ensures lists[..] ==
        if old(|lists[fl]|) < maxChunks then old(lists[..])[fl := [addr] + old(lists[fl])] else old(lists[..])
    {
      if |lists[fl]| < maxChunks {
        lists[fl] := [addr] + lists[fl];
      }
    }

    // ---- Counters ----

    function GetAlloc(fl: nat): nat
      requires fl < allocs.Length
      reads allocs
    {
      allocs[fl]
    }

    /** allocs - useds, wrapped: the bytes on the list. */
    function GetFree(fl: nat): (r: nat)
      requires Valid() && fl < lists.Length
      reads this, allocs, useds, lists
      ensures r == SLOT_SIZE * |lists[fl]|
    {
      assert Balanced(allocs[..], useds[..], lists[..]);
      assert allocs[fl] == allocs[..][fl] && useds[fl] == useds[..][fl] && lists[fl] == lists[..][fl];
      Sub(allocs[fl], useds[fl])
    }

    /** The threshold is computed in int, 32 bits, and compared as size_t. */
    function Thld(alloc: nat): (t: nat)
      ensures alloc * 5 / 100 < 0x8000_0000 ==> t == if alloc * 5 / 100 > minFlFree then alloc * 5 / 100 else minFlFree
      ensures 0x8000_0000 <= alloc * 5 / 100 < 0x1_0000_0000 ==> t >= WORD - 0x8000_0000
    {
      var narrowed := Mul(alloc, 5) / 100 % 0x1_0000_0000;
      var curThold := if narrowed < 0x8000_0000 then narrowed else WORD - 0x1_0000_0000 + narrowed;
      if curThold > minFlFree then curThold else minFlFree
    }

    /** Five per cent of the list's allocation, but no less than the minimum, while that fits an int; when it has its
        32nd bit set, more than any list can have free. */
    function GetThldFree(fl: nat): (t: nat)
      requires Valid() && fl < lists.Length
      reads this, allocs, useds, lists
      ensures allocs[fl] * 5 / 100 < 0x8000_0000 ==>
        t >= minFlFree && t >= allocs[fl] * 5 / 100 && (t == minFlFree || t == allocs[fl] * 5 / 100)
      ensures 0x8000_0000 <= allocs[fl] * 5 / 100 < 0x1_0000_0000 ==> t >= WORD - 0x8000_0000
    {
      Thld(allocs[fl])
    }

    ghost function ClientWords(words: seq<nat>, c: nat): nat
      requires |words| == numClients * perCli && c < numClients
    {
      ClientSum(words, c, numClients, perCli) % WORD
    }

    /** Both accumulator loops: the wrapped sum over a client's lists. */
    method SumClient(words: array<nat>, c: nat) returns (sum: nat)
      requires words.Length == numClients * perCli && c < numClients && perCli > 0
      ensures sum == ClientWords(words[..], c)
    {
      FlBound(c, 0, numClients, perCli);
      ghost var ws := words[..];
      var lo, hi := c * perCli, c * perCli + perCli;
      assert ClientWords(ws, c) == Sum(ws, lo, hi) % WORD;
      sum := SumRange(words, lo, hi);
    }

    method SumRange(words: array<nat>, lo: nat, hi: nat) returns (sum: nat)
      requires lo <= hi <= words.Length
      ensures sum == Sum(words[..], lo, hi) % WORD
    {
      sum := 0;
      var i := lo;
      while i < hi
        invariant lo <= i <= hi && sum == Sum(words[..], lo, i) % WORD
      {
        AddWraps(Sum(words[..], lo, i), words[i]);
        sum := Add(sum, words[i]);
        i := i + 1;
      }
    }

    method GetClientAlloc(c: nat) returns (sum: nat)
      requires Valid() && c < numClients
      ensures sum == ClientWords(allocs[..], c)
    {
      sum := SumClient(allocs, c);
    }

    /** Exact per client whenever every slot was returned with the client it was handed to. */
    method GetClientUsed(c: nat) returns (sum: nat)
      requires Valid() && c < numClients
      ensures sum == ClientWords(useds[..], c)
      ensures UsageExact() ==> sum == SLOT_SIZE * |Holding(out, c)|
    {
      sum := SumClient(useds, c);
    }

    method GetClientFree(c: nat) returns (free: nat)
      requires Valid() && c < numClients
      ensures free == Sub(ClientWords(allocs[..], c), ClientWords(useds[..], c))
    {
      var a := GetClientAlloc(c);
      var u := GetClientUsed(c);
      free := Sub(a, u);
    }

    // ---- Handing slots out and taking them back ----

    function ListId(c: nat, q: nat): (fl: nat)
      requires c < numClients && q < perCli
      ensures fl < numClients * perCli && fl == Fl(c, q, perCli)
    {
      FlBound(c, q, numClients, perCli);
      c * perCli + q
    }

    /** The lists of a client. */
    ghost function ListsOf(ls: seq<seq<Addr>>, c: nat): (own: seq<seq<Addr>>)
      requires c < numClients && |ls| == numClients * perCli
      ensures |own| == perCli
      ensures forall p: nat :: p < perCli ==> own[p] == ls[ListId(c, p)]
    {
      FlEnds(c, numClients, perCli);
      ls[c * perCli..c * perCli + perCli]
    }

    /** A list's client, and its queue there. */
    function ClientOf(fl: nat): (c: nat)
      requires perCli > 0 && fl < numClients * perCli
      ensures c < numClients && c == fl / perCli
    {
      FlClient(fl, numClients, perCli);
      fl / perCli
    }

    function QueueOf(fl: nat): (q: nat)
      requires perCli > 0 && fl < numClients * perCli
      ensures q < perCli && q == fl % perCli
    {
      FlClient(fl, numClients, perCli);
      fl % perCli
    }

    function Tries(): nat {
      if perCli == 1 then 1 else perCli / 2
    }

    /** The q-th list, and the lists after it in the client's ring. */
    function Ring(c: nat, q: nat, i: nat): (fl: nat)
      requires c < numClients && q < perCli && i < perCli
      ensures fl < numClients * perCli && fl == c * perCli + (q + i) % perCli
    {
      Quotient(if q + i < perCli then 0 else 1, perCli, if q + i < perCli then q + i else q + i - perCli);
      ListId(c, if q + i < perCli then q + i else q + i - perCli)
    }

    /** The first non-empty of the lists tried, in ring order from a given or random one, gives its top. */
    method Allocate(cid: nat, q: nat) returns (addr: Option<Addr>, ghost tried: nat)
      requires Valid() && cid < numClients && q < perCli
      modifies this`out, useds, lists
      ensures Valid() && tried <= Tries() <= perCli
      ensures forall i :: 0 <= i < tried ==> old(lists[..])[Ring(cid, q, i)] == []
      ensures addr.None? <==> forall p: nat :: p < perCli && (p == q || (p + perCli - q) % perCli < perCli / 2) ==>
        ListsOf(old(lists[..]), cid)[p] == []
      ensures addr.None? <==> old(Starved(cid, q))
      ensures forall c, p :: old(Starved(c, p)) ==> Starved(c, p)
      ensures addr.None? ==>
        tried == Tries() && out == old(out) && useds[..] == old(useds[..]) && lists[..] == old(lists[..])
      ensures addr.Some? ==>
        tried < Tries() && Taken(Ring(cid, q, tried), old(useds[..]), old(lists[..]), useds[..], lists[..], addr.value)
      ensures addr.Some? ==> addr.value in chunks && addr.value !in old(out) && out == old(out)[addr.value := cid]
      ensures old(UsageExact()) ==> UsageExact()
    {
      hide Separate, Accounted, Usage, Balanced, Taken, PerCPUPool.StarvedIn;
      ghost var ls, us := lists[..], useds[..];
      StarvedMeans(ls, cid, q);
      var fl := cid * perCli + q;
      ghost var at: nat := q;
      var i := 0;
      tried := 0;
      while i < Tries()
        invariant 0 <= i <= Tries() <= perCli && tried == i && at < perCli && fl == ListId(cid, at)
        invariant at == if q + i < perCli then q + i else q + i - perCli
        invariant Valid() && useds[..] == us && lists[..] == ls && out == old(out)
        invariant old(UsageExact()) ==> UsageExact()
        invariant forall j :: 0 <= j < i ==> ls[Ring(cid, q, j)] == []
      {
        addr := TakeFrom(fl, cid, at);
        if addr.Some? {
          TakenFromSome(cid, q, i, us, ls, useds[..], lists[..], addr.value);
          return;
        }
        if fl == cid * perCli + perCli - 1 {
          fl, at := cid * perCli, 0;
        } else {
          fl, at := fl + 1, at + 1;
        }
        i := i + 1;
        tried := i;
      }
      addr := None;
      AllTried(ls, cid, q);
    }

    /** A request that found a slot was not starved, and it takes nothing from empty lists. */
    lemma TakenFromSome(cid: nat, q: nat, i: nat, useds0: seq<nat>, lists0: seq<seq<Addr>>, useds1: seq<nat>,
                        lists1: seq<seq<Addr>>, a: Addr)
      requires cid < numClients && q < perCli && i < Tries() && i < perCli
      requires Taken(Ring(cid, q, i), useds0, lists0, useds1, lists1, a)
      ensures !StarvedIn(lists0, cid, q)
      ensures forall c, p :: StarvedIn(lists0, c, p) ==> StarvedIn(lists1, c, p)
    {
    }

    lemma AllTried(ls: seq<seq<Addr>>, cid: nat, q: nat)
      requires cid < numClients && q < perCli && |ls| == numClients * perCli && Tries() <= perCli
      requires forall i :: 0 <= i < Tries() ==> ls[Ring(cid, q, i)] == []
      ensures StarvedIn(ls, cid, q)
    {
    }

    /** All the lists a request starting at queue q would try are empty. */
    ghost predicate StarvedIn(ls: seq<seq<Addr>>, cid: nat, q: nat) {
      && cid < numClients && q < perCli && |ls| == numClients * perCli
      && forall i :: 0 <= i < Tries() && i < perCli ==> ls[Ring(cid, q, i)] == []
    }

    /** They are the list of the queue and those after it in the client's ring, half of the ring, but at least one. */
    lemma StarvedMeans(ls: seq<seq<Addr>>, cid: nat, q: nat)
      requires cid < numClients && q < perCli && |ls| == numClients * perCli
      ensures StarvedIn(ls, cid, q) <==>
        forall p: nat :: p < perCli && (p == q || (p + perCli - q) % perCli < perCli / 2) ==> ListsOf(ls, cid)[p] == []
    {
      var own := ListsOf(ls, cid);
      forall p: nat | p < perCli
        ensures (p == q || (p + perCli - q) % perCli < perCli / 2) <==> Behind(q, p) < Tries()
        ensures Ring(cid, q, Behind(q, p)) == ListId(cid, p)
      {
        Quotient(if p < q then 0 else 1, perCli, Behind(q, p));
      }
      forall i: nat | i < Tries() && i < perCli
        ensures exists p: nat :: p < perCli && i == Behind(q, p) && Ring(cid, q, i) == ListId(cid, p)
      {
        var p := if q + i < perCli then q + i else q + i - perCli;
        assert i == Behind(q, p);
      }
    }

    /** How many queues after q the queue p comes, going round. */
    function Behind(q: nat, p: nat): (i: nat)
      requires q < perCli && p < perCli
      ensures i < perCli
    {
      if q <= p then p - q else p + perCli - q
    }

    ghost predicate Starved(cid: nat, q: nat)
      reads lists
    {
      StarvedIn(lists[..], cid, q)
    }

    /** With a single list, a request starves exactly when every slot is handed out. */
    lemma StarvedAlone()
      requires Valid() && numClients == 1 && perCli == 1
      ensures Starved(0, 0) <==> |out| == |chunks|
    {
      assert lists[..] == [lists[0]] && Ring(0, 0, 0) == 0;
      AloneAccounted(chunks, out, lists[..]);
    }

    /** One pass of the loop. */
    method TakeFrom(fl: nat, cid: nat, ghost at: nat) returns (addr: Option<Addr>)
      requires Valid() && cid < numClients && at < perCli && fl == ListId(cid, at)
      modifies this`out, useds, lists
      ensures Valid()
      ensures addr.None? ==>
        old(lists[..])[fl] == [] && out == old(out) && useds[..] == old(useds[..]) && lists[..] == old(lists[..])
      ensures addr.Some? ==> Taken(fl, old(useds[..]), old(lists[..]), useds[..], lists[..], addr.value)
      ensures addr.Some? ==> addr.value in chunks && addr.value !in old(out) && out == old(out)[addr.value := cid]
      ensures old(UsageExact()) ==> UsageExact()
    {
      ghost var ls, us := lists[..], useds[..];
      addr := GetFreeAddr(fl);
      if addr.Some? {
        PopSeparate(ls, fl, chunks, out, cid);
        BalancedTake(allocs[..], us, ls, fl);
        if UsageExact() { UsageTake(us, out, chunks, addr.value, cid, at, numClients, perCli); }
        useds[fl] := Add(useds[fl], SLOT_SIZE);
        out := out[addr.value := cid];
        assert useds[..] == us[fl := Add(us[fl], SLOT_SIZE)];
      }
    }

    /** The top of list fl is taken and counted as used there; no other list or counter changes. */
    ghost predicate Taken(fl: nat, useds0: seq<nat>, lists0: seq<seq<Addr>>, useds1: seq<nat>,
                          lists1: seq<seq<Addr>>, a: Addr) {
      && fl < |lists0| && fl < |useds0| && lists0[fl] != [] && a == lists0[fl][0]
      && lists1 == lists0[fl := lists0[fl][1..]] && useds1 == useds0[fl := Add(useds0[fl], SLOT_SIZE)]
    }

    /** The slot joins a given or random list of the named client, and the push never fails: each list
        has a node per chunk. */
    method Free(addr: Addr, cid: nat, q: nat)
      requires Valid() && addr in out && cid < numClients && q < perCli
      modifies this`out, useds, lists
      ensures Valid() && out == old(out) - {addr}
      ensures lists[..] == old(lists[..])[ListId(cid, q) := [addr] + old(lists[..])[ListId(cid, q)]]
      ensures useds[..] == old(useds[..])[ListId(cid, q) := Sub(old(useds[..])[ListId(cid, q)], SLOT_SIZE)]
      ensures old(UsageExact()) && old(out)[addr] == cid ==> UsageExact()
    {
      var fl := ListId(cid, q);
      ghost var ls, us := lists[..], useds[..];
      PushSeparate(ls, fl, chunks, out, addr);
      BalancedReturn(allocs[..], us, ls, fl, addr);
      if UsageExact() && out[addr] == cid { UsageReturn(us, out, chunks, addr, cid, q, numClients, perCli); }
      PutFreeAddr(fl, addr);
      useds[fl] := Sub(useds[fl], SLOT_SIZE);
      out := out - {addr};
      assert useds[..] == us[fl := Sub(us[fl], SLOT_SIZE)];
    }

    // ---- Borrowing between clients ----

    /** A client's spare memory in whole megabytes: what is free beyond its threshold, if it passes both
        the allocation and the free threshold. */
    ghost function Spare(allocs: seq<nat>, useds: seq<nat>, c: nat): nat
      requires |allocs| == |useds| == numClients * perCli && c < numClients && perCli > 0
    {
      var alloc := ClientWords(allocs, c);
      var free := Sub(alloc, ClientWords(useds, c));
      var thldFree := Mul(Thld(allocs[ListId(c, 0)]), perCli);
      if alloc / MB > Mul(minFlAlloc, perCli) / MB && free / MB > thldFree / MB then (free - thldFree) / MB else 0
    }

    lemma SpareIs(as0: seq<nat>, us: seq<nat>, c: nat, alloc: nat, free: nat, thld: nat)
      requires |as0| == |us| == numClients * perCli && c < numClients && perCli > 0
      requires alloc == ClientWords(as0, c) && free == Sub(alloc, ClientWords(us, c))
      requires thld == Thld(as0[ListId(c, 0)]) * perCli < WORD && minFlAlloc * perCli < WORD
      ensures Spare(as0, us, c) ==
        if alloc / MB > minFlAlloc * perCli / MB && free / MB > thld / MB then (free - thld) / MB else 0
    {
      MulUnwrapped(Thld(as0[ListId(c, 0)]), perCli);
      MulUnwrapped(minFlAlloc, perCli);
      hide PerCPUPool.Thld, PerCPUPool.ClientWords, Mul, Sub;
    }

    /** Without overflow it is that: of what the client's lists hold, what exceeds the threshold of its first list times
        its lists, if its allocation exceeds the minimum times its lists. */
    lemma SpareMeans(c: nat, lo: nat, thld: nat)
      requires Valid() && c < numClients && minFlAlloc * perCli < WORD
      requires lo == ListId(c, 0) && thld == GetThldFree(lo) * perCli < WORD
      ensures allocs.Length == useds.Length == lists.Length && lo + perCli <= lists.Length
      ensures var free := SLOT_SIZE * SlotsOn(lists[..], lo, lo + perCli);
        Spare(allocs[..], useds[..], c) ==
          if Sum(allocs[..], lo, lo + perCli) / MB > minFlAlloc * perCli / MB && free / MB > thld / MB then
            (free - thld) / MB
          else
            0
    {
      FreeBytes(c);
      var free := SLOT_SIZE * SlotsOn(lists[..], lo, lo + perCli);
      assert allocs[..][lo] == allocs[lo];
      assert GetThldFree(lo) == Thld(allocs[..][lo]);
      hide PerCPUPool.Valid, Sum, SlotsOn, PerCPUPool.Thld, PerCPUPool.ClientWords, PerCPUPool.Spare, Sub, Mul;
      SpareIs(allocs[..], useds[..], c, Sum(allocs[..], lo, lo + perCli), free, thld);
    }

    lemma FreeBytes(c: nat)
      requires Valid() && c < numClients
      ensures allocs.Length == useds.Length == lists.Length && ListId(c, 0) + perCli <= lists.Length
      ensures var lo := ListId(c, 0); var alloc := Sum(allocs[..], lo, lo + perCli);
        && alloc < WORD && ClientWords(allocs[..], c) == alloc
        && Sub(alloc, ClientWords(useds[..], c)) == SLOT_SIZE * SlotsOn(lists[..], lo, lo + perCli)
    {
      FlEnds(c, numClients, perCli);
      var lo := ListId(c, 0);
      var hi := lo + perCli;
      SumWithin(allocs[..], lo, hi);
      SlotsFit(lists[..], chunks, out, lo, hi);
      var k := SumBalanced(allocs[..], useds[..], lists[..], lo, hi);
      hide Balanced, Separate, Accounted, Sum, SlotsOn;
      Unwrapped(Sum(allocs[..], lo, hi));
      SubWraps(Sum(allocs[..], lo, hi), Sum(useds[..], lo, hi), SLOT_SIZE * SlotsOn(lists[..], lo, hi), k);
    }

    /** How many clients after cur the client c comes, going round. */
    function Distance(cur: nat, c: nat): (d: nat)
      requires cur < numClients && c < numClients
      ensures d < numClients && (c == cur + d || c == cur + d - numClients)
    {
      if cur <= c then c - cur else c + numClients - cur
    }

    /** Every other client is looked at once, in cyclic order from the next; the first with the most spare
        megabytes is chosen, and the caller itself exactly when none has one to spare. */
    method SelectByFreeMem(cur: nat) returns (tgt: nat)
      requires Valid() && cur < numClients
      ensures tgt < numClients && BestSpare(allocs[..], useds[..], cur, tgt)
    {
      tgt := cur;
      var next: nat := if cur + 1 == numClients then 0 else cur + 1;
      var maxFree := 0;
      ghost var as0, us := allocs[..], useds[..];
      for i := 0 to numClients - 1
        invariant next < numClients && Distance(cur, next) == if i + 1 == numClients then 0 else i + 1
        invariant tgt < numClients && (tgt == cur <==> maxFree / MB == 0)
        invariant tgt != cur ==> Spare(as0, us, tgt) == maxFree / MB && Distance(cur, tgt) <= i
        invariant forall c: nat :: c < numClients && c != cur && Distance(cur, c) <= i ==>
          Spare(as0, us, c) < maxFree / MB || Spare(as0, us, c) == 0
          || (Spare(as0, us, c) == maxFree / MB && Distance(cur, tgt) <= Distance(cur, c))
      {
        var avail := AvailFree(next, as0, us);
        assert forall c: nat :: c < numClients && Distance(cur, c) == i + 1 ==> c == next;
        if avail / MB > maxFree / MB {
          maxFree, tgt := avail, next;
        }
        next := if next + 1 == numClients then 0 else next + 1;
      }
    }

    /** The caller itself exactly when no other client has a megabyte to spare; otherwise the first client in
        cyclic order among those with the most whole megabytes to spare. */
    ghost predicate BestSpare(allocs: seq<nat>, useds: seq<nat>, cur: nat, tgt: nat)
      requires |allocs| == |useds| == numClients * perCli && cur < numClients && tgt < numClients && perCli > 0
    {
      && (tgt == cur <==> forall c: nat :: c < numClients && c != cur ==> Spare(allocs, useds, c) == 0)
      && (tgt != cur ==> Spare(allocs, useds, tgt) > 0)
      && (tgt != cur ==> forall c: nat :: c < numClients && c != cur ==>
            || Spare(allocs, useds, c) < Spare(allocs, useds, tgt)
            || (Spare(allocs, useds, c) == Spare(allocs, useds, tgt) && Distance(cur, tgt) <= Distance(cur, c)))
    }

    /** What the loop finds a client able to lend: nothing unless it passes both thresholds. */
    method AvailFree(c: nat, ghost as0: seq<nat>, ghost us: seq<nat>) returns (avail: nat)
      requires Valid() && c < numClients && as0 == allocs[..] && us == useds[..]
      ensures avail / MB == Spare(as0, us, c)
    {
      var cliAlloc := GetClientAlloc(c);
      var cliFree := GetClientFree(c);
      var thldAlloc := Mul(minFlAlloc, perCli);
      var thldFree := Mul(GetThldFree(ListId(c, 0)), perCli);
      if cliAlloc / MB > thldAlloc / MB && cliFree / MB > thldFree / MB {
        avail := cliFree - thldFree;
      } else {
        avail := 0;
      }
    }

    /** Borrows one slot for list fl from the list of the same queue of the chosen client, or reports that
        no client was chosen or that list fails its thresholds. */
    method AllocateFromPeer(fl: nat) returns (addr: Option<Addr>, ghost from: nat)
      requires Valid() && fl < lists.Length
      modifies allocs, lists
      ensures Valid()
      ensures from < numClients
      ensures BestSpare(old(allocs[..]), useds[..], ClientOf(fl), from)
      ensures addr.Some? <==> from != ClientOf(fl) && old(Lends(ListId(from, QueueOf(fl))))
      ensures var peer := ListId(from, QueueOf(fl));
        addr.Some? <==>
          && from != fl / perCli && old(allocs[peer]) / MB > minFlAlloc / MB
          && SLOT_SIZE * |old(lists[peer])| / MB > minFlFree / MB
      ensures addr.Some? <==> old(CanBorrow(fl))
      ensures addr.None? ==> allocs[..] == old(allocs[..]) && lists[..] == old(lists[..])
      ensures addr.Some? ==>
        Borrowed(fl, ListId(from, QueueOf(fl)), old(allocs[..]), old(lists[..]), allocs[..], lists[..], addr.value)
      ensures old(UsageExact()) ==> UsageExact()
    {
      hide Separate, Accounted, Balanced, BestSpare, Borrowed, CanBorrow;
      FlClient(fl, numClients, perCli);
      var cur, q := ClientOf(fl), QueueOf(fl);
      var next := SelectByFreeMem(cur);
      CanBorrowIs(fl, next);
      from := next;
      if cur == next {
        return None, from;
      }
      var peerFl := ListId(next, q);
      FlOwner(next, q, cur, perCli);
      FlOwner(cur, q, cur, perCli);
      var i := 0;
      while i < Tries()
        invariant allocs[..] == old(allocs[..]) && lists[..] == old(lists[..]) && Valid()
        invariant i > 0 ==> !old(Lends(peerFl))
      {
        if Lends(peerFl) {
          var a := Borrow(fl, peerFl);
          return Some(a), from;
        }
        i := i + 1;
      }
      addr := None;
    }

    /** The client chosen is another one, and its list of the same queue passes the per-list thresholds. */
    ghost predicate CanBorrow(fl: nat)
      requires Valid() && fl < lists.Length
      reads this, allocs, useds, lists
    {
      exists from: nat :: from < numClients && BestSpare(allocs[..], useds[..], ClientOf(fl), from)
        && from != ClientOf(fl) && Lends(ListId(from, QueueOf(fl)))
    }

    /** The choice is unique. */
    lemma BestSpareUnique(as0: seq<nat>, us: seq<nat>, cur: nat, a: nat, b: nat)
      requires |as0| == |us| == numClients * perCli && cur < numClients && a < numClients && b < numClients
      requires perCli > 0
      requires BestSpare(as0, us, cur, a) && BestSpare(as0, us, cur, b)
      ensures a == b
    {
    }

    lemma CanBorrowIs(fl: nat, from: nat)
      requires Valid() && fl < lists.Length && from < numClients && BestSpare(allocs[..], useds[..], ClientOf(fl), from)
      ensures CanBorrow(fl) <==> from != ClientOf(fl) && Lends(ListId(from, QueueOf(fl)))
    {
      forall other: nat | other < numClients && BestSpare(allocs[..], useds[..], ClientOf(fl), other)
        ensures other == from
      {
        BestSpareUnique(allocs[..], useds[..], ClientOf(fl), other, from);
      }
    }

    /** The list passes the per-list thresholds. */
    predicate Lends(fl: nat)
      requires Valid() && fl < lists.Length
      reads this, allocs, useds, lists
    {
      GetAlloc(fl) / MB > minFlAlloc / MB && GetFree(fl) / MB > minFlFree / MB
    }

    /** A list with at least a megabyte free is not empty, so the borrow moves its top. */
    method Borrow(fl: nat, peer: nat) returns (a: Addr)
      requires Valid() && fl < lists.Length && peer < lists.Length && peer != fl
      requires Lends(peer)
      modifies allocs, lists
      ensures Valid()
      ensures Borrowed(fl, peer, old(allocs[..]), old(lists[..]), allocs[..], lists[..], a)
    {
      hide Separate, Accounted;
      ghost var as0, ls := allocs[..], lists[..];
      assert lists[peer] == ls[peer] && allocs[peer] == as0[peer];
      ghost var as1 := as0[peer := as0[peer] - SLOT_SIZE][fl := as0[fl] + SLOT_SIZE];
      ghost var ls1 := ls[peer := ls[peer][1..]][fl := [ls[peer][0]] + ls[fl]];
      BorrowKeeps(as0, as1, useds[..], ls, ls1, chunks, out, maxChunks, peer, fl);
      var addr := GetFreeAddr(peer);
      a := addr.value;
      ShiftAlloc(fl, peer);
      PutFreeAddr(fl, a);
      assert lists[..] == ls1 && allocs[..] == as1;
    }

    method ShiftAlloc(fl: nat, peer: nat)
      requires fl < allocs.Length && peer < allocs.Length && fl != peer && allocs[peer] >= SLOT_SIZE
      modifies allocs
      ensures allocs[..] == old(allocs[..])[peer := old(allocs[peer]) - SLOT_SIZE][fl := old(allocs[fl]) + SLOT_SIZE]
    {
      allocs[peer] := allocs[peer] - SLOT_SIZE;
      allocs[fl] := allocs[fl] + SLOT_SIZE;
    }

    /** The borrow moves the top of the peer's list and its allocation to list fl, touches nothing else, and
        does not take the peer list's whole-megabyte allocation below the minimum's. */
    ghost predicate Borrowed(fl: nat, peer: nat, allocs0: seq<nat>, lists0: seq<seq<Addr>>, allocs1: seq<nat>,
                             lists1: seq<seq<Addr>>,
                             a: Addr) {
      && peer < |lists0| && fl < |lists0| && |allocs0| == |lists0| && peer != fl && lists0[peer] != []
           && a == lists0[peer][0]
      && allocs0[peer] >= SLOT_SIZE
      && allocs1 == allocs0[peer := allocs0[peer] - SLOT_SIZE][fl := allocs0[fl] + SLOT_SIZE]
      && lists1 == lists0[peer := lists0[peer][1..]][fl := [lists0[peer][0]] + lists0[fl]]
      && (allocs0[peer] - SLOT_SIZE) / MB >= minFlAlloc / MB
    }
  }
}
