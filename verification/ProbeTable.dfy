/** The bucket array of the approximate-LRU hash table as a value: what a lookup, a deletion, an
    insertion and a victim choice mean, and the finite map the buckets stand for. */
module ProbeTable {
  import opened Types
  import opened Arith

  type Time = t: nat | t < 0x1_0000_0000

  const NEVER: Time := 0xffff_ffff
  const MAX_PROBING_LEN: nat := 15
  const WINDOW: nat := 16
  const LOCK_SIZE: nat := 16

  datatype Bucket = Bucket(key: Key, value: Addr, timestamp: Time, busy: bool)

  const EMPTY: Bucket := Bucket(INVALID, NONE, NEVER, false)

  predicate Storable(key: Key) {
    key != INVALID && key != TOMBSTONE
  }

  predicate Vacant(b: Bucket) {
    !Storable(b.key)
  }

  type Hash = Key -> nat

  function Home(hash: Hash, key: Key, capacity: nat): (loc: nat)
    requires capacity > 0
    ensures loc < capacity
  {
    hash(key) % capacity
  }

  /** The i-th slot probed from loc, wrapping around the end. */
  function Slot(loc: nat, i: nat, capacity: nat): (slot: nat)
    requires loc < capacity && i < capacity
    ensures slot < capacity
  {
    if loc + i < capacity then loc + i else loc + i - capacity
  }

  /** The same slot as the code computes it. */
  function Probe(loc: nat, i: nat, capacity: nat): (slot: nat)
    requires loc < capacity && i < capacity
    ensures slot == Slot(loc, i, capacity)
  {
    Quotient(if loc + i < capacity then 0 else 1, capacity, Slot(loc, i, capacity));
    (loc + i) % capacity
  }

  /** The i-th slot probed for a key is its hash plus i, modulo the capacity, and no slot is probed twice. */
  lemma PathIsModular(hash: Hash, key: Key, i: nat, j: nat, capacity: nat)
    requires i < capacity && j < capacity
    ensures var loc := Home(hash, key, capacity);
      && Slot(loc, i, capacity) == (hash(key) + i) % capacity
      && (Slot(loc, i, capacity) == Slot(loc, j, capacity) <==> i == j)
  {
    var h := hash(key);
    var q, loc := h / capacity, Home(hash, key, capacity);
    assert h + i == q * capacity + (loc + i);
    if loc + i < capacity {
      Quotient(q, capacity, loc + i);
    } else {
      MulNext(q, capacity);
      Quotient(q + 1, capacity, loc + i - capacity);
    }
  }

  /** How many probes from loc reach the slot. */
  function Offset(loc: nat, slot: nat, capacity: nat): (i: nat)
    requires loc < capacity && slot < capacity
    ensures i < capacity && Slot(loc, i, capacity) == slot
  {
    if loc <= slot then slot - loc else slot + capacity - loc
  }

  // ---- Well-formed tables and their contents ----

  /** The i-th bucket on a key's probe path. */
  function At(bs: seq<Bucket>, loc: nat, i: nat): Bucket
    requires loc < |bs| && i < |bs|
  {
    bs[Slot(loc, i, |bs|)]
  }

  /** The bucket's key lies within its window, with no never-used slot before it on its probe path. */
  ghost predicate Reachable(bs: seq<Bucket>, hash: Hash, s: nat)
    requires s < |bs|
  {
    var loc := Home(hash, bs[s].key, |bs|);
    var d := Offset(loc, s, |bs|);
    d < WINDOW && forall e :: 0 <= e < d ==> At(bs, loc, e).key != INVALID
  }

  /** Each stored key occurs once. */
  ghost predicate Unique(bs: seq<Bucket>) {
    forall s, t :: 0 <= s < |bs| && 0 <= t < |bs| && s != t && !Vacant(bs[s]) ==> bs[s].key != bs[t].key
  }

  ghost predicate WellFormed(bs: seq<Bucket>, hash: Hash) {
    && |bs| >= WINDOW
    && Unique(bs)
    && (forall s :: 0 <= s < |bs| && !Vacant(bs[s]) ==> Reachable(bs, hash, s))
    && (forall s :: 0 <= s < |bs| && !Vacant(bs[s]) ==> bs[s].value != NONE)
  }

  /** The finite map a table stands for. */
  ghost function View(bs: seq<Bucket>): map<Key, Addr>
    requires Unique(bs)
  {
    map s | 0 <= s < |bs| && !Vacant(bs[s]) :: bs[s].key := bs[s].value
  }

  lemma ViewAt(bs: seq<Bucket>, s: nat)
    requires Unique(bs) && s < |bs| && !Vacant(bs[s])
    ensures bs[s].key in View(bs) && View(bs)[bs[s].key] == bs[s].value
  {
  }

  /** A stored key's slot. */
  ghost function SlotOf(bs: seq<Bucket>, key: Key): (s: nat)
    requires Unique(bs) && key in View(bs)
    ensures s < |bs| && !Vacant(bs[s]) && bs[s].key == key && View(bs)[key] == bs[s].value
  {
    var s :| 0 <= s < |bs| && !Vacant(bs[s]) && bs[s].key == key;
    s
  }

  // ---- Bucket updates ----

  function Kill(bs: seq<Bucket>, s: nat): seq<Bucket>
    requires s < |bs|
  {
    bs[s := bs[s].(key := TOMBSTONE)]
  }

  /** SetBucket leaves the busy flag as it was. */
  function Fill(bs: seq<Bucket>, s: nat, key: Key, value: Addr, now: Time): seq<Bucket>
    requires s < |bs|
  {
    bs[s := bs[s].(key := key, value := value, timestamp := now)]
  }

  /** A used slot is never made never-used again, so paths stay open. */
  lemma ReachableKept(bs: seq<Bucket>, bs': seq<Bucket>, hash: Hash, t: nat)
    requires |bs| == |bs'| && t < |bs| && bs'[t].key == bs[t].key && Reachable(bs, hash, t)
    requires forall u :: 0 <= u < |bs| && bs[u].key != INVALID ==> bs'[u].key != INVALID
    ensures Reachable(bs', hash, t)
  {
    var loc := Home(hash, bs[t].key, |bs|);
    forall e | 0 <= e < Offset(loc, t, |bs|) ensures At(bs', loc, e).key != INVALID {
      assert At(bs, loc, e).key != INVALID;
    }
  }

  lemma SameContents(m: map<Key, Addr>, n: map<Key, Addr>)
    requires forall k :: k in m ==> k in n && m[k] == n[k]
    requires forall k :: k in n ==> k in m
    ensures m == n
  {
    assert m.Keys == n.Keys;
  }

  /** Two tables whose live buckets hold the same pairs, but for one removed key, stand for the same map
      but for that key. */
  lemma ViewFrame(bs: seq<Bucket>, bs': seq<Bucket>, gone: set<Key>)
    requires |bs| == |bs'| && Unique(bs) && Unique(bs')
    requires forall t :: 0 <= t < |bs| && !Vacant(bs'[t]) ==>
      bs[t].key == bs'[t].key && bs[t].value == bs'[t].value && bs[t].key !in gone
    requires forall t :: 0 <= t < |bs| && !Vacant(bs[t]) && bs[t].key !in gone ==> bs'[t].key == bs[t].key
    ensures View(bs') == View(bs) - gone
  {
    forall k | k in View(bs') ensures k in View(bs) - gone && View(bs')[k] == View(bs)[k] {
      ViewAt(bs, SlotOf(bs', k));
    }
    forall k | k in View(bs) - gone ensures k in View(bs') {
      ViewAt(bs', SlotOf(bs, k));
    }
    SameContents(View(bs'), View(bs) - gone);
  }

  lemma KillRemoves(bs: seq<Bucket>, hash: Hash, s: nat)
    requires WellFormed(bs, hash) && s < |bs| && !Vacant(bs[s])
    ensures WellFormed(Kill(bs, s), hash)
    ensures View(Kill(bs, s)) == View(bs) - {bs[s].key}
  {
    var bs' := Kill(bs, s);
    forall t | 0 <= t < |bs| && !Vacant(bs'[t]) ensures Reachable(bs', hash, t) {
      ReachableKept(bs, bs', hash, t);
    }
    ViewFrame(bs, bs', {bs[s].key});
  }

  /** Changing only the timestamp or the busy flag changes neither shape nor contents. */
  lemma TouchKeeps(bs: seq<Bucket>, hash: Hash, s: nat, b: Bucket)
    requires WellFormed(bs, hash) && s < |bs| && b.key == bs[s].key && b.value == bs[s].value
    ensures WellFormed(bs[s := b], hash) && View(bs[s := b]) == View(bs)
  {
    var bs' := bs[s := b];
    forall t | 0 <= t < |bs| && !Vacant(bs'[t]) ensures Reachable(bs', hash, t) {
      ReachableKept(bs, bs', hash, t);
    }
    ViewFrame(bs, bs', {});
    SameContents(View(bs), View(bs) - {});
  }

  /** Writing a new key at a slot of its window with no never-used slot before it; the slot's old
      key, if any, goes. */
  lemma FillStores(bs: seq<Bucket>, hash: Hash, i: nat, key: Key, value: Addr, now: Time)
    requires WellFormed(bs, hash) && Storable(key) && value != NONE && key !in View(bs)
    requires i < WINDOW
    requires var loc := Home(hash, key, |bs|); forall e :: 0 <= e < i ==> At(bs, loc, e).key != INVALID
    ensures var s := Slot(Home(hash, key, |bs|), i, |bs|); var bs' := Fill(bs, s, key, value, now);
      WellFormed(bs', hash) && View(bs') == (View(bs) - {bs[s].key})[key := value]
  {
    var loc := Home(hash, key, |bs|);
    var s := Slot(loc, i, |bs|);
    var bs' := Fill(bs, s, key, value, now);
    forall t | 0 <= t < |bs| && t != s && !Vacant(bs[t]) ensures bs[t].key != key && Reachable(bs', hash, t) {
      ViewAt(bs, t);
      ReachableKept(bs, bs', hash, t);
    }
    assert Reachable(bs', hash, s) by {
      assert Offset(loc, s, |bs|) == i;
      forall e | 0 <= e < i ensures At(bs', loc, e).key != INVALID { assert At(bs, loc, e).key != INVALID; }
    }
    FillView(bs, s, key, value, now);
  }

  lemma FillView(bs: seq<Bucket>, s: nat, key: Key, value: Addr, now: Time)
    requires Unique(bs) && Storable(key) && s < |bs|
    requires forall t :: 0 <= t < |bs| && t != s ==> bs[t].key != key
    ensures Unique(Fill(bs, s, key, value, now))
    ensures View(Fill(bs, s, key, value, now)) == (View(bs) - {bs[s].key})[key := value]
  {
    var bs' := Fill(bs, s, key, value, now);
    var rest := Kill(bs, s);
    ViewFrame(bs, rest, {bs[s].key});
    ViewAdds(rest, bs', s);
  }

  /** Filling a vacant slot with a fresh key adds that pair. */
  lemma ViewAdds(bs: seq<Bucket>, bs': seq<Bucket>, s: nat)
    requires Unique(bs) && Unique(bs') && |bs| == |bs'| && s < |bs| && Vacant(bs[s]) && !Vacant(bs'[s])
    requires forall t :: 0 <= t < |bs| && t != s ==> bs'[t] == bs[t]
    ensures View(bs') == View(bs)[bs'[s].key := bs'[s].value]
  {
    var after := View(bs)[bs'[s].key := bs'[s].value];
    ViewAt(bs', s);
    forall k | k in View(bs') ensures k in after && View(bs')[k] == after[k] {
      var t := SlotOf(bs', k);
      if t != s { ViewAt(bs, t); }
    }
    forall k | k in after ensures k in View(bs') {
      if k != bs'[s].key { ViewAt(bs', SlotOf(bs, k)); }
    }
    SameContents(View(bs'), after);
  }

  // ---- Lookup ----

  /** The scan shared by Get, GetWithFlag and Delete: stop at the key, at a never-used slot or at the
      end of the window. */
  function Find(bs: seq<Bucket>, loc: nat, key: Key, i: nat): Option<nat>
    requires loc < |bs| && |bs| >= WINDOW
    decreases WINDOW - i
  {
    if i >= WINDOW then None
    else if At(bs, loc, i).key == key then Some(i)
    else if At(bs, loc, i).key == INVALID then None
    else Find(bs, loc, key, i + 1)
  }

  lemma {:induction false} FindStops(bs: seq<Bucket>, loc: nat, key: Key, i: nat)
    requires loc < |bs| && |bs| >= WINDOW && Storable(key)
    ensures var f := Find(bs, loc, key, i);
      if f.Some? then i <= f.value < WINDOW && At(bs, loc, f.value).key == key
      else forall d :: i <= d < WINDOW && (forall e :: i <= e < d ==> At(bs, loc, e).key != INVALID) ==>
          At(bs, loc, d).key != key
    decreases WINDOW - i
  {
    if i < WINDOW && At(bs, loc, i).key != key && At(bs, loc, i).key != INVALID {
      FindStops(bs, loc, key, i + 1);
    }
  }

  /** The bounded scan decides membership of the map and finds the stored value. */
  lemma FindIsLookup(bs: seq<Bucket>, hash: Hash, key: Key)
    requires WellFormed(bs, hash) && Storable(key)
    ensures var loc := Home(hash, key, |bs|); var f := Find(bs, loc, key, 0);
      if key in View(bs)
      then f.Some? && f.value < WINDOW && At(bs, loc, f.value).key == key && View(bs)[key] == At(bs, loc, f.value).value
      else f.None?
  {
    var loc := Home(hash, key, |bs|);
    FindStops(bs, loc, key, 0);
    var f := Find(bs, loc, key, 0);
    if f.Some? {
      ViewAt(bs, Slot(loc, f.value, |bs|));
    } else if key in View(bs) {
      var s := SlotOf(bs, key);
      assert Reachable(bs, hash, s);
      var d := Offset(loc, s, |bs|);
      ghost var path := At(bs, loc, d).key;
    }
  }

  // ---- Victims ----

  /** The first vacant slot of the window at or after the i-th probe. */
  function FirstVacant(bs: seq<Bucket>, loc: nat, i: nat): Option<nat>
    requires loc < |bs| && |bs| >= WINDOW
    decreases WINDOW - i
  {
    if i >= WINDOW then None
    else if Vacant(At(bs, loc, i)) then Some(i)
    else FirstVacant(bs, loc, i + 1)
  }

  lemma {:induction false} FirstVacantIs(bs: seq<Bucket>, loc: nat, i: nat)
    requires loc < |bs| && |bs| >= WINDOW
    ensures var f := FirstVacant(bs, loc, i);
      if f.Some?
      then i <= f.value < WINDOW && Vacant(At(bs, loc, f.value)) && forall e :: i <= e < f.value ==>
          !Vacant(At(bs, loc, e))
      else forall e :: i <= e < WINDOW ==> !Vacant(At(bs, loc, e))
    decreases WINDOW - i
  {
    if i < WINDOW && !Vacant(At(bs, loc, i)) { FirstVacantIs(bs, loc, i + 1); }
  }

  /** The window is scanned one lock range at a time; a range's part of it begins at the window's
      start, at a slot divisible by the range size, or at slot 0 when the window wraps. */
  function SegmentBegin(loc: nat, i: nat, capacity: nat): (b: nat)
    requires loc < capacity && i < capacity
    ensures b <= i
  {
    if i == 0 || Slot(loc, i, capacity) % LOCK_SIZE == 0 then i else SegmentBegin(loc, i - 1, capacity)
  }

  /** It is the last probe up to i that enters a range. */
  lemma {:induction false} SegmentBeginIs(loc: nat, i: nat, capacity: nat)
    requires loc < capacity && i < capacity
    ensures var b := SegmentBegin(loc, i, capacity);
      && (b == 0 || Slot(loc, b, capacity) % LOCK_SIZE == 0)
      && forall j :: b < j <= i ==> Slot(loc, j, capacity) % LOCK_SIZE != 0
    decreases i
  {
    if i > 0 && Slot(loc, i, capacity) % LOCK_SIZE != 0 { SegmentBeginIs(loc, i - 1, capacity); }
  }

  lemma SameRange(loc: nat, i: nat, capacity: nat)
    requires loc < capacity && i + 1 < capacity && Slot(loc, i + 1, capacity) % LOCK_SIZE != 0
    ensures SegmentBegin(loc, i + 1, capacity) == SegmentBegin(loc, i, capacity)
  {
  }

  /** The latest probe in [lo, hi) whose bucket is occupied and has the least timestamp. */
  function Oldest(bs: seq<Bucket>, loc: nat, lo: nat, hi: nat): Option<nat>
    requires loc < |bs| && hi <= |bs|
    decreases hi
  {
    if hi <= lo then None
    else
      var before := Oldest(bs, loc, lo, hi - 1);
      var b := At(bs, loc, hi - 1);
      if !Vacant(b) && (before.None? || b.timestamp <= At(bs, loc, OrZero(before, hi)).timestamp)
      then Some(hi - 1) else before
  }

  /** A probe number to index with, whatever the option holds. */
  function OrZero(o: Option<nat>, bound: nat): (i: nat)
    requires bound > 0
    ensures i < bound && (o.Some? && o.value < bound ==> i == o.value)
  {
    if o.Some? && o.value < bound then o.value else 0
  }

  lemma {:induction false} OldestIs(bs: seq<Bucket>, loc: nat, lo: nat, hi: nat)
    requires loc < |bs| && hi <= |bs|
    ensures var o := Oldest(bs, loc, lo, hi);
      if o.Some?
      then && lo <= o.value < hi && !Vacant(At(bs, loc, o.value))
           && forall e :: lo <= e < hi && !Vacant(At(bs, loc, e)) ==>
                At(bs, loc, o.value).timestamp <= At(bs, loc, e).timestamp
      else forall e :: lo <= e < hi ==> Vacant(At(bs, loc, e))
    decreases hi
  {
    if hi > lo { OldestIs(bs, loc, lo, hi - 1); }
  }

  /** The victim: the oldest entry of the window's last lock range, unless the range before it can be
      locked again and has a strictly older one. Earlier ranges are forgotten. */
  function Victim(bs: seq<Bucket>, loc: nat, prevFree: bool): Option<nat>
    requires loc < |bs| && |bs| >= WINDOW
  {
    var cur := SegmentBegin(loc, MAX_PROBING_LEN, |bs|);
    var c := Oldest(bs, loc, cur, WINDOW);
    if c.None? then None
    else
      var p := if cur == 0 then None else Oldest(bs, loc, SegmentBegin(loc, cur - 1, |bs|), cur);
      if p.Some? && prevFree && At(bs, loc, OrZero(p, WINDOW)).timestamp < At(bs, loc, OrZero(c, WINDOW)).timestamp
      then p else c
  }

  lemma VictimIs(bs: seq<Bucket>, loc: nat, prevFree: bool)
    requires loc < |bs| && |bs| >= WINDOW
    ensures var v := Victim(bs, loc, prevFree);
      v.Some? ==> v.value < WINDOW && !Vacant(At(bs, loc, v.value))
    ensures (forall e :: 0 <= e < WINDOW ==> !Vacant(At(bs, loc, e))) ==> Victim(bs, loc, prevFree).Some?
  {
    var cur := SegmentBegin(loc, MAX_PROBING_LEN, |bs|);
    OldestIs(bs, loc, cur, WINDOW);
    if cur > 0 { OldestIs(bs, loc, SegmentBegin(loc, cur - 1, |bs|), cur); }
  }

  /** The window touches at most two lock ranges. */
  predicate TwoRanges(loc: nat, capacity: nat)
    requires loc < capacity && capacity >= WINDOW
  {
    var cur := SegmentBegin(loc, MAX_PROBING_LEN, capacity);
    cur == 0 || SegmentBegin(loc, cur - 1, capacity) == 0
  }

  /** Approximate LRU is exact when the window touches at most two lock ranges: the victim is a
      least recently used entry of all 16 slots. */
  lemma VictimIsOldest(bs: seq<Bucket>, loc: nat)
    requires loc < |bs| && |bs| >= WINDOW && TwoRanges(loc, |bs|)
    ensures var v := Victim(bs, loc, true); v.Some? ==>
      && v.value < WINDOW && !Vacant(At(bs, loc, v.value))
      && forall e :: 0 <= e < WINDOW && !Vacant(At(bs, loc, e)) ==>
           At(bs, loc, v.value).timestamp <= At(bs, loc, e).timestamp
  {
    var cur := SegmentBegin(loc, MAX_PROBING_LEN, |bs|);
    OldestIs(bs, loc, cur, WINDOW);
    if cur > 0 { OldestIs(bs, loc, 0, cur); }
  }

  /** The range boundaries inside a window: the one multiple of 16 it meets before the table's end,
      and the wrap-around to slot 0. */
  lemma Boundaries(loc: nat, capacity: nat, j: nat)
    requires loc < capacity && capacity > WINDOW && 0 < j < WINDOW
    ensures Slot(loc, j, capacity) % LOCK_SIZE == 0 <==>
      if j < capacity - loc then j == (loc + 15) / LOCK_SIZE * LOCK_SIZE - loc else j == capacity - loc
  {
  }

  /** The window touches three lock ranges exactly when it wraps around the end of a table whose last
      range is short and lies inside the window. */
  lemma TwoRangesIff(loc: nat, capacity: nat)
    requires loc < capacity && capacity > WINDOW
    ensures TwoRanges(loc, capacity) <==>
      !(capacity % LOCK_SIZE != 0 && loc < capacity / LOCK_SIZE * LOCK_SIZE && capacity - loc < WINDOW)
  {
    var cur := SegmentBegin(loc, MAX_PROBING_LEN, capacity);
    SegmentBeginIs(loc, MAX_PROBING_LEN, capacity);
    forall j | 0 < j < WINDOW
      ensures Slot(loc, j, capacity) % LOCK_SIZE == 0 <==>
        if j < capacity - loc then j == (loc + 15) / LOCK_SIZE * LOCK_SIZE - loc else j == capacity - loc
    {
      Boundaries(loc, capacity, j);
    }
    if cur > 0 { SegmentBeginIs(loc, cur - 1, capacity); }
    var m, last := (loc + 15) / LOCK_SIZE * LOCK_SIZE, capacity / LOCK_SIZE * LOCK_SIZE;
    var k := m - loc;
    if capacity - loc < WINDOW {
      assert last == m || last == m - LOCK_SIZE;
      if 0 < k < capacity - loc { assert Slot(loc, k, capacity) % LOCK_SIZE == 0; }
      assert Slot(loc, capacity - loc, capacity) % LOCK_SIZE == 0;
      assert cur == capacity - loc;
    } else {
      if k > 0 { assert Slot(loc, k, capacity) % LOCK_SIZE == 0; }
      assert cur == k;
    }
  }

  /** When the window touches three lock ranges, as the window from slot 10 of a table of 24 does, the
      first slot's entry is never the victim, however old. */
  lemma ThreeRangesForget(bs: seq<Bucket>, loc: nat)
    requires loc < |bs| && |bs| >= WINDOW && !TwoRanges(loc, |bs|)
    ensures Victim(bs, loc, true) != Some(0)
    ensures !TwoRanges(10, 24)
  {
    var cur := SegmentBegin(loc, MAX_PROBING_LEN, |bs|);
    OldestIs(bs, loc, cur, WINDOW);
    OldestIs(bs, loc, SegmentBegin(loc, cur - 1, |bs|), cur);
    TwoRangesIff(10, 24);
  }

  // ---- Victims in plain terms ----

  /** No lock range begins after probe d of the window: it is in the last range. */
  ghost predicate InLast(loc: nat, d: nat, capacity: nat)
    requires loc < capacity && capacity >= WINDOW
  {
    forall j :: d < j < WINDOW ==> Slot(loc, j, capacity) % LOCK_SIZE != 0
  }

  /** At most one begins: it is in the last range or the one before. */
  ghost predicate InLastTwo(loc: nat, d: nat, capacity: nat)
    requires loc < capacity && capacity >= WINDOW
  {
    forall i, j :: d < i < j < WINDOW ==>
      Slot(loc, i, capacity) % LOCK_SIZE != 0 || Slot(loc, j, capacity) % LOCK_SIZE != 0
  }

  /** No entry of the window's last range has a smaller timestamp, nor, if the range before can be locked again, an
      entry of that. */
  ghost predicate NoneOlder(bs: seq<Bucket>, loc: nat, prevFree: bool, timestamp: Time)
    requires loc < |bs| && |bs| >= WINDOW
  {
    forall d :: 0 <= d < WINDOW && !Vacant(At(bs, loc, d))
        && (InLast(loc, d, |bs|) || (prevFree && InLastTwo(loc, d, |bs|)))
      ==> timestamp <= At(bs, loc, d).timestamp
  }

  /** The e-th probe meets an entry of the ranges the victim may come from, and none of them is older. */
  ghost predicate IsVictim(bs: seq<Bucket>, loc: nat, prevFree: bool, e: nat)
    requires loc < |bs| && |bs| >= WINDOW
  {
    && e < WINDOW && !Vacant(At(bs, loc, e)) && NoneOlder(bs, loc, prevFree, At(bs, loc, e).timestamp)
    && (InLast(loc, e, |bs|) || (prevFree && InLastTwo(loc, e, |bs|)))
  }

  lemma SegmentIsLast(loc: nat, capacity: nat)
    requires loc < capacity && capacity >= WINDOW
    ensures var cur := SegmentBegin(loc, MAX_PROBING_LEN, capacity);
      && (forall d :: 0 <= d < WINDOW ==> (InLast(loc, d, capacity) <==> cur <= d))
      && (cur > 0 ==> forall d :: 0 <= d < WINDOW ==>
            (InLastTwo(loc, d, capacity) <==> SegmentBegin(loc, cur - 1, capacity) <= d))
      && (cur == 0 ==> forall d :: 0 <= d < WINDOW ==> InLastTwo(loc, d, capacity))
  {
    var cur := SegmentBegin(loc, MAX_PROBING_LEN, capacity);
    SegmentBeginIs(loc, MAX_PROBING_LEN, capacity);
    if cur > 0 {
      SegmentBeginIs(loc, cur - 1, capacity);
      var before := SegmentBegin(loc, cur - 1, capacity);
      hide SegmentBegin;
      forall d | 0 <= d < WINDOW ensures InLastTwo(loc, d, capacity) <==> before <= d {
        if d < before {
          assert Slot(loc, before, capacity) % LOCK_SIZE == 0 && Slot(loc, cur, capacity) % LOCK_SIZE == 0;
        }
      }
    }
  }

  /** The victim comes from the window's last range or, if that can be locked again, the one before, and is least
      recently used in them. */
  lemma VictimIsPlain(bs: seq<Bucket>, loc: nat, prevFree: bool)
    requires loc < |bs| && |bs| >= WINDOW
    ensures var v := Victim(bs, loc, prevFree); v.Some? ==> IsVictim(bs, loc, prevFree, v.value)
  {
    var cur := SegmentBegin(loc, MAX_PROBING_LEN, |bs|);
    SegmentIsLast(loc, |bs|);
    OldestIs(bs, loc, cur, WINDOW);
    if cur > 0 { OldestIs(bs, loc, SegmentBegin(loc, cur - 1, |bs|), cur); }
    hide InLast, InLastTwo, Oldest, SegmentBegin;
  }

  /** An entry with a greater timestamp than all others of a full window is a victim if and only if it is alone in the
      last range and the range before cannot be locked again. */
  lemma NewestIsVictimIff(bs: seq<Bucket>, loc: nat, prevFree: bool, e: nat)
    requires loc < |bs| && |bs| >= WINDOW && e < WINDOW
    requires forall d :: 0 <= d < WINDOW ==> !Vacant(At(bs, loc, d))
    requires forall d :: 0 <= d < WINDOW && d != e ==> At(bs, loc, d).timestamp < At(bs, loc, e).timestamp
    ensures IsVictim(bs, loc, prevFree, e) <==>
      !prevFree && e == MAX_PROBING_LEN && Slot(loc, MAX_PROBING_LEN, |bs|) % LOCK_SIZE == 0
  {
    var last, before := MAX_PROBING_LEN, MAX_PROBING_LEN - 1;
    assert InLast(loc, last, |bs|) && InLastTwo(loc, before, |bs|);
    assert InLast(loc, before, |bs|) <==> Slot(loc, last, |bs|) % LOCK_SIZE != 0;
    assert InLast(loc, e, |bs|) && e < last ==> InLast(loc, before, |bs|);
  }

  lemma TwoRangesPlain(loc: nat, capacity: nat)
    requires loc < capacity && capacity >= WINDOW
    ensures TwoRanges(loc, capacity) <==> InLastTwo(loc, 0, capacity)
  {
    SegmentIsLast(loc, capacity);
    hide InLast, InLastTwo, SegmentBegin;
  }

  // ---- The operations ----

  datatype Deleted = Deleted(table: seq<Bucket>, value: Addr)

  function DeleteFrom(bs: seq<Bucket>, hash: Hash, key: Key): Deleted
    requires |bs| >= WINDOW
  {
    var loc := Home(hash, key, |bs|);
    match Find(bs, loc, key, 0)
    case Some(i) => if i < WINDOW then Deleted(Kill(bs, Slot(loc, i, |bs|)), At(bs, loc, i).value)
        else Deleted(bs, NONE)
    case None => Deleted(bs, NONE)
  }

  /** Deletion hands back the stored value and forgets the key, or changes nothing. */
  lemma DeleteIsRemoval(bs: seq<Bucket>, hash: Hash, key: Key)
    requires WellFormed(bs, hash) && Storable(key)
    ensures var d := DeleteFrom(bs, hash, key);
      && WellFormed(d.table, hash) && |d.table| == |bs|
      && View(d.table) == View(bs) - {key}
      && d.value == (if key in View(bs) then View(bs)[key] else NONE)
      && (d.value == NONE <==> key !in View(bs))
      && (key !in View(bs) ==> d.table == bs)
  {
    FindIsLookup(bs, hash, key);
    var loc := Home(hash, key, |bs|);
    var f := Find(bs, loc, key, 0);
    if f.Some? {
      KillRemoves(bs, hash, Slot(loc, f.value, |bs|));
    } else {
      SameContents(View(bs), View(bs) - {key});
    }
  }

  /** The table after a lookup refreshes the found entry's timestamp. */
  function Stamped(bs: seq<Bucket>, hash: Hash, key: Key, now: Time): seq<Bucket>
    requires |bs| >= WINDOW
  {
    var loc := Home(hash, key, |bs|);
    var f := Find(bs, loc, key, 0);
    if f.None? then bs
    else var s := Slot(loc, OrZero(f, WINDOW), |bs|); bs[s := bs[s].(timestamp := now)]
  }

  function Flagged(bs: seq<Bucket>, hash: Hash, key: Key, busy: bool, now: Time): seq<Bucket>
    requires |bs| >= WINDOW
  {
    var loc := Home(hash, key, |bs|);
    var f := Find(bs, loc, key, 0);
    if f.None? then bs
    else
      var s := Slot(loc, OrZero(f, WINDOW), |bs|);
      bs[s := if busy then bs[s].(busy := true, timestamp := now) else bs[s].(busy := false)]
  }

  function Looked(bs: seq<Bucket>, hash: Hash, key: Key): Addr
    requires |bs| >= WINDOW
  {
    var loc := Home(hash, key, |bs|);
    var f := Find(bs, loc, key, 0);
    if f.None? then NONE else At(bs, loc, OrZero(f, WINDOW)).value
  }

  lemma StampedKeeps(bs: seq<Bucket>, hash: Hash, key: Key, now: Time)
    requires WellFormed(bs, hash) && Storable(key)
    ensures WellFormed(Stamped(bs, hash, key, now), hash) && View(Stamped(bs, hash, key, now)) == View(bs)
    ensures Looked(bs, hash, key) == if key in View(bs) then View(bs)[key] else NONE
  {
    FindIsLookup(bs, hash, key);
    var loc := Home(hash, key, |bs|);
    var s := Slot(loc, OrZero(Find(bs, loc, key, 0), WINDOW), |bs|);
    TouchKeeps(bs, hash, s, bs[s].(timestamp := now));
  }

  lemma FlaggedKeeps(bs: seq<Bucket>, hash: Hash, key: Key, busy: bool, now: Time)
    requires WellFormed(bs, hash) && Storable(key)
    ensures WellFormed(Flagged(bs, hash, key, busy, now), hash) && View(Flagged(bs, hash, key, busy, now)) == View(bs)
    ensures Looked(bs, hash, key) == if key in View(bs) then View(bs)[key] else NONE
  {
    FindIsLookup(bs, hash, key);
    var loc := Home(hash, key, |bs|);
    var s := Slot(loc, OrZero(Find(bs, loc, key, 0), WINDOW), |bs|);
    TouchKeeps(bs, hash, s, if busy then bs[s].(busy := true, timestamp := now) else bs[s].(busy := false));
  }

  /** What deletion and lookups write, bucket by bucket. */
  lemma TouchesOne(bs: seq<Bucket>, hash: Hash, key: Key, busy: bool, now: Time) returns (s: nat)
    requires WellFormed(bs, hash) && Storable(key)
    ensures s < |bs|
    ensures key in View(bs) ==>
      && bs[s].key == key
      && DeleteFrom(bs, hash, key).table == bs[s := bs[s].(key := TOMBSTONE)]
      && Stamped(bs, hash, key, now) == bs[s := bs[s].(timestamp := now)]
      && Flagged(bs, hash, key, busy, now) ==
           bs[s := bs[s].(busy := busy, timestamp := if busy then now else bs[s].timestamp)]
    ensures key !in View(bs) ==>
      DeleteFrom(bs, hash, key).table == Stamped(bs, hash, key, now) == Flagged(bs, hash, key, busy, now) == bs
  {
    FindIsLookup(bs, hash, key);
    s := Slot(Home(hash, key, |bs|), OrZero(Find(bs, Home(hash, key, |bs|), key, 0), WINDOW), |bs|);
  }

  datatype Inserted = Inserted(table: seq<Bucket>, ret: int, evKey: Key, evValue: Addr)

  /** Insertion: a duplicate is removed and handed back; otherwise the first vacant slot of the window
      is used; otherwise the victim is replaced unless it is busy. */
  function InsertInto(bs: seq<Bucket>, hash: Hash, key: Key, value: Addr, now: Time, prevFree: bool): Inserted
    requires |bs| >= WINDOW
  {
    var loc := Home(hash, key, |bs|);
    var d := DeleteFrom(bs, hash, key);
    if d.value != NONE then Inserted(d.table, 0, INVALID, d.value)
    else
      var f := FirstVacant(bs, loc, 0);
      if f.Some? then Inserted(Fill(bs, Slot(loc, OrZero(f, WINDOW), |bs|), key, value, now), 0, INVALID, NONE)
      else
        var v := Victim(bs, loc, prevFree);
        var b := At(bs, loc, OrZero(v, WINDOW));
        if v.None? || b.busy then Inserted(bs, -1, key, value)
        else Inserted(Fill(bs, Slot(loc, OrZero(v, WINDOW), |bs|), key, value, now), 0, b.key, b.value)
  }

  /** Some slot of the window can take a new key. */
  ghost predicate HasRoom(bs: seq<Bucket>, loc: nat)
    requires loc < |bs| && |bs| >= WINDOW
  {
    exists e :: 0 <= e < WINDOW && Vacant(At(bs, loc, e))
  }

  /** A window is full only when at least as many keys are stored. */
  lemma FullWindowKeys(bs: seq<Bucket>, loc: nat)
    requires Unique(bs) && loc < |bs| && |bs| >= WINDOW && !HasRoom(bs, loc)
    ensures |View(bs)| >= WINDOW
  {
    var keys := seq(WINDOW, e requires 0 <= e < WINDOW => At(bs, loc, e).key);
    forall e | 0 <= e < WINDOW ensures keys[e] in View(bs).Keys {
      assert !Vacant(At(bs, loc, e));
      ViewAt(bs, Slot(loc, e, |bs|));
    }
    forall d, e | 0 <= d < e < WINDOW ensures keys[d] != keys[e] {
      assert !Vacant(At(bs, loc, d)) && Slot(loc, d, |bs|) != Slot(loc, e, |bs|);
    }
    DistinctFits(keys, View(bs).Keys);
    assert |View(bs).Keys| == |View(bs)|;
  }

  ghost predicate DuplicateReturned(m: map<Key, Addr>, r: Inserted, m': map<Key, Addr>, key: Key) {
    key in m && r.ret == 0 && r.evKey == INVALID && r.evValue == m[key] && m' == m - {key}
  }

  ghost predicate Added(m: map<Key, Addr>, r: Inserted, m': map<Key, Addr>, key: Key, value: Addr) {
    key !in m && r.ret == 0 && r.evKey == INVALID && r.evValue == NONE && m' == m[key := value]
  }

  ghost predicate AddedEvicting(m: map<Key, Addr>, r: Inserted, m': map<Key, Addr>, key: Key, value: Addr) {
    && key !in m && r.ret == 0 && r.evKey in m && r.evValue == m[r.evKey]
    && m' == (m - {r.evKey})[key := value]
  }

  ghost predicate Refused(m: map<Key, Addr>, r: Inserted, m': map<Key, Addr>, key: Key, value: Addr) {
    key !in m && r.ret == -1 && r.evKey == key && r.evValue == value && m' == m
  }

  /** A removed duplicate leaves its window with room for the key. */
  lemma DuplicateLeavesRoom(bs: seq<Bucket>, hash: Hash, key: Key)
    requires WellFormed(bs, hash) && Storable(key) && key in View(bs)
    ensures HasRoom(DeleteFrom(bs, hash, key).table, Home(hash, key, |bs|))
  {
    FindIsLookup(bs, hash, key);
    var loc := Home(hash, key, |bs|);
    var i := Find(bs, loc, key, 0).value;
    assert Vacant(At(DeleteFrom(bs, hash, key).table, loc, i));
  }

  lemma InsertDuplicate(bs: seq<Bucket>, hash: Hash, key: Key, value: Addr, now: Time, prevFree: bool)
    requires WellFormed(bs, hash) && Storable(key) && key in View(bs)
    ensures var r := InsertInto(bs, hash, key, value, now, prevFree);
      WellFormed(r.table, hash) && |r.table| == |bs| && DuplicateReturned(View(bs), r, View(r.table), key)
  {
    hide View, Unique, Reachable, Find, Victim, FirstVacant;
    DeleteIsRemoval(bs, hash, key);
  }

  /** With room, the pair goes to the window's first vacant slot. */
  lemma InsertWithRoom(bs: seq<Bucket>, hash: Hash, key: Key, value: Addr, now: Time, prevFree: bool, i: nat)
    requires WellFormed(bs, hash) && Storable(key) && value != NONE && key !in View(bs)
    requires FirstVacant(bs, Home(hash, key, |bs|), 0) == Some(i)
    ensures var r := InsertInto(bs, hash, key, value, now, prevFree);
      WellFormed(r.table, hash) && |r.table| == |bs| && Added(View(bs), r, View(r.table), key, value)
  {
    var loc := Home(hash, key, |bs|);
    FirstVacantIs(bs, loc, 0);
    VacantNotStored(bs, Slot(loc, i, |bs|));
    hide View, Unique, Reachable, Find, Victim, FirstVacant, WellFormed;
    DeleteIsRemoval(bs, hash, key);
    FillStores(bs, hash, i, key, value, now);
    SameContents(View(bs), View(bs) - {At(bs, loc, i).key});
  }

  /** A vacant slot's reserved word is no stored key. */
  lemma VacantNotStored(bs: seq<Bucket>, s: nat)
    requires Unique(bs) && s < |bs| && Vacant(bs[s])
    ensures bs[s].key !in View(bs)
  {
  }

  /** The slot a full window's insertion writes. */
  lemma InsertsOverVictim(bs: seq<Bucket>, hash: Hash, key: Key, value: Addr, now: Time, prevFree: bool, i: nat)
    requires |bs| >= WINDOW && DeleteFrom(bs, hash, key).value == NONE && i < WINDOW
    requires var loc := Home(hash, key, |bs|);
      FirstVacant(bs, loc, 0).None? && Victim(bs, loc, prevFree) == Some(i) && !At(bs, loc, i).busy
    ensures var b := At(bs, Home(hash, key, |bs|), i);
      InsertInto(bs, hash, key, value, now, prevFree) ==
        Inserted(Fill(bs, Slot(Home(hash, key, |bs|), i, |bs|), key, value, now), 0, b.key, b.value)
  {
    hide Find, Victim, FirstVacant, DeleteFrom;
  }

  /** Without room, the victim's pair is replaced. */
  lemma InsertEvicting(bs: seq<Bucket>, hash: Hash, key: Key, value: Addr, now: Time, prevFree: bool, i: nat)
    requires WellFormed(bs, hash) && Storable(key) && value != NONE && key !in View(bs)
    requires var loc := Home(hash, key, |bs|);
      FirstVacant(bs, loc, 0).None? && Victim(bs, loc, prevFree) == Some(i) && i < WINDOW && !At(bs, loc, i).busy
    ensures var r := InsertInto(bs, hash, key, value, now, prevFree);
      && WellFormed(r.table, hash) && |r.table| == |bs|
      && r.evKey == At(bs, Home(hash, key, |bs|), i).key && AddedEvicting(View(bs), r, View(r.table), key, value)
  {
    hide View, Unique, Reachable, Find, Victim, FirstVacant, WellFormed, InsertInto, DeleteFrom;
    var loc := Home(hash, key, |bs|);
    InsertsOverVictim(bs, hash, key, value, now, prevFree, i) by {
      DeleteIsRemoval(bs, hash, key);
    }
    PathTaken(bs, hash, loc, i);
    FillStores(bs, hash, i, key, value, now);
  }

  /** A full window's probe path meets no never-used slot, and its entries are stored. */
  lemma PathTaken(bs: seq<Bucket>, hash: Hash, loc: nat, i: nat)
    requires WellFormed(bs, hash) && loc < |bs| && i < WINDOW && FirstVacant(bs, loc, 0).None?
    ensures forall e :: 0 <= e < i ==> At(bs, loc, e).key != INVALID
    ensures At(bs, loc, i).key in View(bs) && View(bs)[At(bs, loc, i).key] == At(bs, loc, i).value
  {
    FirstVacantIs(bs, loc, 0);
    assert !Vacant(At(bs, loc, i));
    ViewAt(bs, Slot(loc, i, |bs|));
  }

  /** A busy victim refuses the caller's pair. */
  lemma InsertRefused(bs: seq<Bucket>, hash: Hash, key: Key, value: Addr, now: Time, prevFree: bool, i: nat)
    requires WellFormed(bs, hash) && Storable(key) && key !in View(bs)
    requires var loc := Home(hash, key, |bs|);
      FirstVacant(bs, loc, 0).None? && Victim(bs, loc, prevFree) == Some(i) && i < WINDOW && At(bs, loc, i).busy
    ensures var r := InsertInto(bs, hash, key, value, now, prevFree);
      r.table == bs && Refused(View(bs), r, View(r.table), key, value)
  {
    hide View, Unique, Reachable, Find, Victim, FirstVacant, WellFormed;
    DeleteIsRemoval(bs, hash, key);
  }

  /** Room in the window is what the scan finds, and a full window has a victim. */
  lemma RoomIsVacancy(bs: seq<Bucket>, loc: nat, prevFree: bool)
    requires loc < |bs| && |bs| >= WINDOW
    ensures var f, v := FirstVacant(bs, loc, 0), Victim(bs, loc, prevFree);
      && (HasRoom(bs, loc) <==> f.Some?) && (f.Some? ==> f.value < WINDOW)
      && (v.Some? ==> v.value < WINDOW) && (f.None? ==> v.Some?)
  {
    hide Victim, FirstVacant;
    FirstVacantIs(bs, loc, 0);
    VictimIs(bs, loc, prevFree);
  }

  /** What an insertion of a new key writes, bucket by bucket: one slot of the key's window, its first vacant one or a
      victim's, gets exactly the pair and the time and keeps its busy flag; or nothing changes. */
  ghost predicate WritesNew(bs: seq<Bucket>, loc: nat, key: Key, value: Addr, now: Time, prevFree: bool, r: Inserted,
                            e: nat)
    requires loc < |bs| && |bs| >= WINDOW && e < WINDOW
  {
    var s := Slot(loc, e, |bs|);
    if r.ret == 0 then
      && r.table == bs[s := Bucket(key, value, now, bs[s].busy)]
      && (if HasRoom(bs, loc)
          then r.evKey == INVALID && Vacant(bs[s]) && forall d :: 0 <= d < e ==> !Vacant(At(bs, loc, d))
          else r.evKey == bs[s].key && r.evValue == bs[s].value && !bs[s].busy && IsVictim(bs, loc, prevFree, e))
    else
      && r.table == bs && r.evKey == key && r.evValue == value
      && !HasRoom(bs, loc) && bs[s].busy && IsVictim(bs, loc, prevFree, e)
  }

  lemma InsertWrites(bs: seq<Bucket>, hash: Hash, key: Key, value: Addr, now: Time, prevFree: bool) returns (e: nat)
    requires |bs| >= WINDOW && DeleteFrom(bs, hash, key).value == NONE
    ensures e < WINDOW
    ensures WritesNew(bs, Home(hash, key, |bs|), key, value, now, prevFree,
                      InsertInto(bs, hash, key, value, now, prevFree), e)
  {
    hide Find, Victim, FirstVacant, DeleteFrom, IsVictim, HasRoom, Home;
    var loc := Home(hash, key, |bs|);
    FirstVacantIs(bs, loc, 0);
    RoomIsVacancy(bs, loc, prevFree);
    VictimIsPlain(bs, loc, prevFree);
    var f, v := FirstVacant(bs, loc, 0), Victim(bs, loc, prevFree);
    e := if f.Some? then f.value else v.value;
  }

  /** Insert has exactly four outcomes on the map, told apart by the duplicate, the room in the window
      and the busy flag of the victim, and each keeps the table well formed. */
  lemma InsertOutcomes(bs: seq<Bucket>, hash: Hash, key: Key, value: Addr, now: Time, prevFree: bool)
    requires WellFormed(bs, hash) && Storable(key) && value != NONE
    ensures var r := InsertInto(bs, hash, key, value, now, prevFree);
      && WellFormed(r.table, hash) && |r.table| == |bs|
    ensures var r := InsertInto(bs, hash, key, value, now, prevFree);
      var m, m', loc := View(bs), View(r.table), Home(hash, key, |bs|);
      if key in m then DuplicateReturned(m, r, m', key)
      else if HasRoom(bs, loc) then Added(m, r, m', key, value)
      else
        var v := Victim(bs, loc, prevFree);
        && v.Some? && v.value < WINDOW
        && if At(bs, loc, v.value).busy then r.table == bs && Refused(m, r, m', key, value)
           else r.evKey == At(bs, loc, v.value).key && AddedEvicting(m, r, m', key, value)
  {
    hide View, Unique, Reachable, Find, Victim, FirstVacant, HasRoom, InsertInto, DuplicateReturned, Added, Refused,
      AddedEvicting;
    var loc := Home(hash, key, |bs|);
    RoomIsVacancy(bs, loc, prevFree);
    var f, v := FirstVacant(bs, loc, 0), Victim(bs, loc, prevFree);
    if key in View(bs) {
      InsertDuplicate(bs, hash, key, value, now, prevFree);
    } else if f.Some? {
      InsertWithRoom(bs, hash, key, value, now, prevFree, f.value);
    } else if At(bs, loc, v.value).busy {
      InsertRefused(bs, hash, key, value, now, prevFree, v.value);
    } else {
      InsertEvicting(bs, hash, key, value, now, prevFree, v.value);
    }
  }
}
