/** The approximate-LRU linear-probing hash table, updated in place. Each operation is one atomic step;
    the hash, the clock, the random start and the outcome of try_lock are inputs. */
module LinearProbing {
  import opened Types
  import opened Arith
  import opened ProbeTable

  const MAX_EVICT_RETRY: nat := 2

  /** One try of the evictor: the random number it starts from, which of the lock ranges it meets is
      already locked, if any, and whether the range before the last can be locked again. */
  datatype Attempt = Attempt(random: nat, blocked: Option<nat>, prevFree: bool)

  /** The loop variables: the slot and timestamp of the best victim so far, or -1 and the largest timestamp. */
  datatype Candidate = Candidate(slot: int, timestamp: Time)

  const NOBODY: Candidate := Candidate(-1, NEVER)

  /** How a range's scan ended. */
  datatype RangeEnd = Scanned | MetBusy | Immediate

  /** The oldest entry among the probes of [lo, hi). */
  ghost function Best(bs: seq<Bucket>, loc: nat, lo: nat, hi: nat): Candidate
    requires loc < |bs| && hi <= |bs|
  {
    var o := Oldest(bs, loc, lo, hi);
    if o.None? then Candidate(-1, NEVER)
    else if o.value < hi then Candidate(Slot(loc, o.value, |bs|), At(bs, loc, o.value).timestamp)
    else Candidate(-1, NEVER)
  }

  /** The best of the part of the range scanned just before the one that begins at first. */
  ghost function BestBefore(bs: seq<Bucket>, loc: nat, first: nat): Candidate
    requires loc < |bs| && first <= |bs|
  {
    Best(bs, loc, if first == 0 then 0 else SegmentBegin(loc, first - 1, |bs|), first)
  }

  lemma BestOfNone(bs: seq<Bucket>, loc: nat, lo: nat)
    requires loc < |bs| && lo <= |bs|
    ensures Best(bs, loc, lo, lo) == NOBODY && forall c :: Combine(c, Best(bs, loc, lo, lo)) == c
  {
  }

  /** Where one range's probes end, the next range's begin. */
  lemma RangeEnds(bs: seq<Bucket>, loc: nat, first: nat, last: nat)
    requires loc < |bs| && last + 1 < |bs| && Slot(loc, last + 1, |bs|) % LOCK_SIZE == 0
    requires SegmentBegin(loc, last, |bs|) == first
    ensures SegmentBegin(loc, last + 1, |bs|) == last + 1
    ensures RangeIndex(loc, last + 1, |bs|) == RangeIndex(loc, last, |bs|) + 1
    ensures BestBefore(bs, loc, last + 1) == Best(bs, loc, first, last + 1)
  {
  }

  /** The probes of [lo, hi) all meet occupied buckets. */
  ghost predicate Occupied(bs: seq<Bucket>, loc: nat, lo: nat, hi: nat)
    requires loc < |bs| && hi <= |bs|
  {
    forall e :: lo <= e < hi ==> !Vacant(At(bs, loc, e))
  }

  lemma FirstVacantAt(bs: seq<Bucket>, loc: nat, i: nat)
    requires loc < |bs| && |bs| >= WINDOW && i <= WINDOW && Occupied(bs, loc, 0, i)
    requires i < WINDOW ==> Vacant(At(bs, loc, i))
    ensures FirstVacant(bs, loc, 0) == if i < WINDOW then Some(i) else None
  {
    FirstVacantIs(bs, loc, 0);
  }

  lemma BestStep(bs: seq<Bucket>, loc: nat, lo: nat, i: nat)
    requires loc < |bs| && lo <= i < |bs|
    ensures Best(bs, loc, lo, i + 1) ==
      if !Vacant(At(bs, loc, i)) && At(bs, loc, i).timestamp <= Best(bs, loc, lo, i).timestamp
      then Candidate(Slot(loc, i, |bs|), At(bs, loc, i).timestamp) else Best(bs, loc, lo, i)
  {
    OldestIs(bs, loc, lo, i);
  }

  /** What the loop's two candidates decide is the victim. */
  lemma VictimByLoop(bs: seq<Bucket>, loc: nat, cur: nat, prevFree: bool)
    requires loc < |bs| && |bs| >= WINDOW && cur == SegmentBegin(loc, MAX_PROBING_LEN, |bs|)
    ensures var v, best, prev := Victim(bs, loc, prevFree), Best(bs, loc, cur, WINDOW), BestBefore(bs, loc, cur);
      if best.slot == -1 then v.None?
      else && v.Some? && v.value < WINDOW && !Vacant(At(bs, loc, v.value))
           && Slot(loc, v.value, |bs|) ==
                if prev.slot != -1 && prev.timestamp < best.timestamp && prevFree then prev.slot else best.slot
    ensures Occupied(bs, loc, cur, WINDOW) ==> Victim(bs, loc, prevFree).Some?
  {
    VictimIs(bs, loc, prevFree);
    OldestIs(bs, loc, cur, WINDOW);
    if cur > 0 { OldestIs(bs, loc, SegmentBegin(loc, cur - 1, |bs|), cur); }
  }

  datatype Landed = Landed(slot: int, vacant: bool)

  /** The slot an insertion uses: the window's first vacant one, or the victim's. */
  ghost function Landing(bs: seq<Bucket>, loc: nat, prevFree: bool): Landed
    requires loc < |bs| && |bs| >= WINDOW
  {
    var f, v := FirstVacant(bs, loc, 0), Victim(bs, loc, prevFree);
    if f.Some? then Landed(Slot(loc, OrZero(f, WINDOW), |bs|), true)
    else if v.Some? then Landed(Slot(loc, OrZero(v, WINDOW), |bs|), false)
    else Landed(-1, false)
  }

  lemma VacantLanding(bs: seq<Bucket>, loc: nat, i: nat, prevFree: bool)
    requires loc < |bs| && |bs| >= WINDOW && i < WINDOW && Occupied(bs, loc, 0, i) && Vacant(At(bs, loc, i))
    ensures Landing(bs, loc, prevFree) == Landed(Slot(loc, i, |bs|), true)
  {
    FirstVacantAt(bs, loc, i);
  }

  lemma ProbeEnds(bs: seq<Bucket>, loc: nat, cur: nat, best: Candidate, prev: Candidate, prevFree: bool)
    requires loc < |bs| && |bs| >= WINDOW && Occupied(bs, loc, 0, WINDOW)
    requires SegmentBegin(loc, MAX_PROBING_LEN, |bs|) == cur
    requires best == Best(bs, loc, cur, WINDOW) && prev == BestBefore(bs, loc, cur)
    ensures best.slot != -1
    ensures Landing(bs, loc, prevFree) == Landed(Pick(best, prev, prevFree), false)
    ensures 0 <= Pick(best, prev, prevFree) < |bs|
  {
    FirstVacantAt(bs, loc, WINDOW);
    VictimByLoop(bs, loc, cur, prevFree);
  }

  ghost predicate NoBusy(bs: seq<Bucket>) {
    forall s :: 0 <= s < |bs| ==> !bs[s].busy
  }

  /** The window has no room for the key, and the entry that must make room is the victim's and not busy. */
  ghost predicate Chosen(bs: seq<Bucket>, hash: Hash, key: Key, prevFree: bool, victim: Key) {
    && |bs| >= WINDOW && !HasRoom(bs, Home(hash, key, |bs|))
    && var s := Landing(bs, Home(hash, key, |bs|), prevFree).slot;
       0 <= s < |bs| && bs[s].key == victim && !bs[s].busy
  }

  /** It is one that none of the ranges it may come from is older than. */
  lemma ChosenIsVictim(bs: seq<Bucket>, hash: Hash, key: Key, prevFree: bool, victim: Key) returns (e: nat)
    requires Chosen(bs, hash, key, prevFree, victim)
    ensures e < WINDOW && IsVictim(bs, Home(hash, key, |bs|), prevFree, e)
    ensures At(bs, Home(hash, key, |bs|), e).key == victim && !At(bs, Home(hash, key, |bs|), e).busy
  {
    var loc := Home(hash, key, |bs|);
    RoomIsVacancy(bs, loc, prevFree);
    VictimIsPlain(bs, loc, prevFree);
    e := Victim(bs, loc, prevFree).value;
    hide Victim, FirstVacant, IsVictim;
  }

  /** Which entry makes room, and that without busy entries one always does. */
  lemma InsertChooses(bs: seq<Bucket>, hash: Hash, key: Key, value: Addr, now: Time, prevFree: bool)
    requires WellFormed(bs, hash) && Storable(key) && value != NONE
    ensures var r := InsertInto(bs, hash, key, value, now, prevFree);
      && (key !in View(bs) && r.ret == 0 && r.evKey != INVALID ==> Chosen(bs, hash, key, prevFree, r.evKey))
      && (NoBusy(bs) ==> NoBusy(r.table) && r.ret == 0)
  {
    hide View, Unique, Reachable, Find, Victim, FirstVacant;
    InsertOutcomes(bs, hash, key, value, now, prevFree);
    DeleteIsRemoval(bs, hash, key);
    FirstVacantIs(bs, Home(hash, key, |bs|), 0);
    VictimIs(bs, Home(hash, key, |bs|), prevFree);
  }

  /** A duplicate removed ends the insertion. */
  lemma InsertStops(bs: seq<Bucket>, hash: Hash, key: Key, value: Addr, now: Time, prevFree: bool)
    requires |bs| >= WINDOW && DeleteFrom(bs, hash, key).value != NONE
    ensures var d := DeleteFrom(bs, hash, key);
      InsertInto(bs, hash, key, value, now, prevFree) == Inserted(d.table, 0, INVALID, d.value)
  {
    hide Victim, FirstVacant, DeleteFrom;
  }

  /** What the insertion does with the slot the probe found. */
  lemma InsertByProbe(bs: seq<Bucket>, hash: Hash, key: Key, value: Addr, now: Time, prevFree: bool, slot: nat,
                      vacant: bool)
    requires |bs| >= WINDOW && slot < |bs| && DeleteFrom(bs, hash, key).value == NONE
    requires Landed(slot, vacant) == Landing(bs, Home(hash, key, |bs|), prevFree)
    ensures InsertInto(bs, hash, key, value, now, prevFree) ==
      if vacant then Inserted(Fill(bs, slot, key, value, now), 0, INVALID, NONE)
      else if bs[slot].busy then Inserted(bs, -1, key, value)
      else Inserted(Fill(bs, slot, key, value, now), 0, bs[slot].key, bs[slot].value)
  {
  }

  /** What an insertion writes, bucket by bucket: e is the slot of the pair removed, or the probe of the one written. */
  lemma InsertTouches(bs: seq<Bucket>, hash: Hash, key: Key, value: Addr, now: Time, prevFree: bool) returns (e: nat)
    requires WellFormed(bs, hash) && Storable(key)
    ensures var r := InsertInto(bs, hash, key, value, now, prevFree);
      if key in View(bs) then e < |bs| && bs[e].key == key && r.table == bs[e := bs[e].(key := TOMBSTONE)]
      else e < WINDOW && WritesNew(bs, Home(hash, key, |bs|), key, value, now, prevFree, r, e)
  {
    hide View, Unique, Reachable, WritesNew, InsertInto, DeleteFrom, Find;
    DeleteIsRemoval(bs, hash, key);
    if key in View(bs) {
      InsertStops(bs, hash, key, value, now, prevFree);
      e := TouchesOne(bs, hash, key, false, now);
    } else {
      e := InsertWrites(bs, hash, key, value, now, prevFree);
    }
  }

  // ---- The newest entry stays ----

  /** Which insertion into a full window throws out the entry that is newer than all others there. */
  lemma NewestPicked(bs: seq<Bucket>, loc: nat, key: Key, value: Addr, now: Time, prevFree: bool, r: Inserted, e: nat,
                     v: nat)
    requires Unique(bs) && loc < |bs| && |bs| >= WINDOW && e < WINDOW && v < WINDOW && !HasRoom(bs, loc)
    requires forall d :: 0 <= d < WINDOW && d != e ==> At(bs, loc, d).timestamp < At(bs, loc, e).timestamp
    requires WritesNew(bs, loc, key, value, now, prevFree, r, v) && key != At(bs, loc, e).key
    ensures r.evKey == At(bs, loc, e).key <==>
      r.ret == 0 && !prevFree && e == MAX_PROBING_LEN && Slot(loc, MAX_PROBING_LEN, |bs|) % LOCK_SIZE == 0
  {
    assert !Vacant(At(bs, loc, e)) && !Vacant(At(bs, loc, v));
    NewestIsVictimIff(bs, loc, prevFree, e);
    hide NoneOlder;
    assert v != e ==> Slot(loc, v, |bs|) != Slot(loc, e, |bs|);
  }

  lemma StoredNewest(bs: seq<Bucket>, loc: nat, key: Key, value: Addr, now: Time, prevFree: bool, r: Inserted, e: nat)
    requires loc < |bs| && |bs| >= WINDOW && e < WINDOW && Storable(key) && !HasRoom(bs, loc) && r.ret == 0
    requires forall d :: 0 <= d < WINDOW ==> At(bs, loc, d).timestamp < now
    requires WritesNew(bs, loc, key, value, now, prevFree, r, e)
    ensures |r.table| == |bs| && At(r.table, loc, e).key == key && !HasRoom(r.table, loc)
    ensures forall d :: 0 <= d < WINDOW && d != e ==> At(r.table, loc, d).timestamp < At(r.table, loc, e).timestamp
  {
    hide IsVictim;
    forall d | 0 <= d < WINDOW
      ensures !Vacant(At(r.table, loc, d)) && (d != e ==> At(r.table, loc, d) == At(bs, loc, d))
    {
      assert !Vacant(At(bs, loc, d)) && (d != e ==> Slot(loc, d, |bs|) != Slot(loc, e, |bs|));
    }
  }

  /** A key stored in a full window at a time later than all others there is thrown out by the next insertion there
      if and only if it is alone in the window's last lock range and the range before cannot be locked again. */
  lemma NewestStays(bs: seq<Bucket>, hash: Hash, key: Key, value: Addr, now: Time, prevFree: bool,
                    key': Key, value': Addr, now': Time, prevFree': bool) returns (e: nat)
    requires WellFormed(bs, hash) && Storable(key) && Storable(key') && key != key' && value != NONE
    requires Home(hash, key', |bs|) == Home(hash, key, |bs|) && !HasRoom(bs, Home(hash, key, |bs|))
    requires forall d :: 0 <= d < WINDOW ==> At(bs, Home(hash, key, |bs|), d).timestamp < now
    requires key !in View(bs) && key' !in View(bs) && InsertInto(bs, hash, key, value, now, prevFree).ret == 0
    ensures var bs' := InsertInto(bs, hash, key, value, now, prevFree).table;
      && |bs'| == |bs| && e < WINDOW && At(bs', Home(hash, key, |bs|), e).key == key
      && (InsertInto(bs', hash, key', value', now', prevFree').evKey == key <==>
            && InsertInto(bs', hash, key', value', now', prevFree').ret == 0 && !prevFree'
            && e == MAX_PROBING_LEN && Slot(Home(hash, key, |bs|), e, |bs|) % LOCK_SIZE == 0)
  {
    hide View, Reachable, Unique, Vacant, IsVictim, InsertInto, Home, DeleteFrom, WritesNew, HasRoom, Victim, Slot;
    var loc := Home(hash, key, |bs|);
    InsertOutcomes(bs, hash, key, value, now, prevFree);
    var bs' := InsertInto(bs, hash, key, value, now, prevFree).table;
    e := InsertTouches(bs, hash, key, value, now, prevFree);
    StoredNewest(bs, loc, key, value, now, prevFree, InsertInto(bs, hash, key, value, now, prevFree), e);
    var v := InsertTouches(bs', hash, key', value', now', prevFree');
    NewestPicked(bs', loc, key', value', now', prevFree', InsertInto(bs', hash, key', value', now', prevFree'), e, v);
  }

  /** The same of a key just read. */
  lemma ReadStays(bs: seq<Bucket>, hash: Hash, key: Key, now: Time, key': Key, value': Addr, now': Time,
                  prevFree': bool)
    returns (e: nat)
    requires WellFormed(bs, hash) && Storable(key) && Storable(key') && key in View(bs) && key' !in View(bs)
    requires Home(hash, key', |bs|) == Home(hash, key, |bs|) && !HasRoom(bs, Home(hash, key, |bs|))
    requires forall d :: 0 <= d < WINDOW ==> At(bs, Home(hash, key, |bs|), d).timestamp < now
    ensures var bs' := Stamped(bs, hash, key, now);
      && |bs'| == |bs| && e < WINDOW && At(bs', Home(hash, key, |bs|), e).key == key
      && (InsertInto(bs', hash, key', value', now', prevFree').evKey == key <==>
            && InsertInto(bs', hash, key', value', now', prevFree').ret == 0 && !prevFree'
            && e == MAX_PROBING_LEN && Slot(Home(hash, key, |bs|), e, |bs|) % LOCK_SIZE == 0)
  {
    hide View, Reachable, IsVictim, InsertInto, Home, DeleteFrom, WritesNew, Victim, Find;
    var loc := Home(hash, key, |bs|);
    FindIsLookup(bs, hash, key);
    StampedKeeps(bs, hash, key, now);
    var bs' := Stamped(bs, hash, key, now);
    e := Find(bs, loc, key, 0).value;
    StampedNewest(bs, loc, e, now);
    var v := InsertTouches(bs', hash, key', value', now', prevFree');
    NewestPicked(bs', loc, key', value', now', prevFree', InsertInto(bs', hash, key', value', now', prevFree'), e, v);
  }

  lemma StampedNewest(bs: seq<Bucket>, loc: nat, e: nat, now: Time)
    requires loc < |bs| && |bs| >= WINDOW && e < WINDOW && !HasRoom(bs, loc)
    requires forall d :: 0 <= d < WINDOW ==> At(bs, loc, d).timestamp < now
    ensures var bs' := bs[Slot(loc, e, |bs|) := At(bs, loc, e).(timestamp := now)];
      && !HasRoom(bs', loc)
      && forall d :: 0 <= d < WINDOW && d != e ==> At(bs', loc, d).timestamp < At(bs', loc, e).timestamp
  {
    var bs' := bs[Slot(loc, e, |bs|) := At(bs, loc, e).(timestamp := now)];
    forall d | 0 <= d < WINDOW ensures !Vacant(At(bs', loc, d)) && (d != e ==> At(bs', loc, d) == At(bs, loc, d)) {
      assert !Vacant(At(bs, loc, d)) && (d != e ==> Slot(loc, d, |bs|) != Slot(loc, e, |bs|));
    }
  }

  // ---- Eviction tries ----

  /** What the code decides at the window's end: an older victim of the range before wins if that range
      can be locked again. */
  function Pick(best: Candidate, prev: Candidate, prevFree: bool): int {
    if best.slot == -1 then -1
    else if prev.slot != -1 && prev.timestamp < best.timestamp && prevFree then prev.slot else best.slot
  }

  /** The victim variables name nobody, or an entry of the table that is not busy, and its timestamp. */
  ghost predicate Current(bs: seq<Bucket>, c: Candidate) {
    c == NOBODY || (0 <= c.slot < |bs| && !Vacant(bs[c.slot]) && !bs[c.slot].busy
        && c.timestamp == bs[c.slot].timestamp)
  }

  /** The victim variables after a range's scan that started from c. */
  function Combine(c: Candidate, best: Candidate): Candidate {
    if best.slot != -1 && best.timestamp <= c.timestamp then best else c
  }

  lemma CombineStep(bs: seq<Bucket>, loc: nat, lo: nat, i: nat, c: Candidate)
    requires loc < |bs| && lo <= i < |bs|
    ensures Combine(c, Best(bs, loc, lo, i + 1)) ==
      if !Vacant(At(bs, loc, i)) && At(bs, loc, i).timestamp <= Combine(c, Best(bs, loc, lo, i)).timestamp
      then Candidate(Slot(loc, i, |bs|), At(bs, loc, i).timestamp) else Combine(c, Best(bs, loc, lo, i))
  {
    BestStep(bs, loc, lo, i);
    hide Best;
  }

  /** The scan stops at a busy entry, and in random mode at any. */
  predicate Stops(b: Bucket, random: bool) {
    !Vacant(b) && (random || b.busy)
  }

  function FirstStop(bs: seq<Bucket>, loc: nat, random: bool, i: nat): Option<nat>
    requires loc < |bs| && |bs| >= WINDOW
    decreases WINDOW - i
  {
    if i >= WINDOW then None
    else if Stops(At(bs, loc, i), random) then Some(i)
    else FirstStop(bs, loc, random, i + 1)
  }

  ghost predicate Passed(bs: seq<Bucket>, loc: nat, random: bool, lo: nat, hi: nat)
    requires loc < |bs| && hi <= |bs|
  {
    forall e :: lo <= e < hi ==> !Stops(At(bs, loc, e), random)
  }

  lemma {:induction false} FirstStopIs(bs: seq<Bucket>, loc: nat, random: bool, i: nat, stop: nat)
    requires loc < |bs| && |bs| >= WINDOW && i <= stop <= WINDOW && Passed(bs, loc, random, i, stop)
    requires stop < WINDOW ==> Stops(At(bs, loc, stop), random)
    ensures FirstStop(bs, loc, random, i) == if stop < WINDOW then Some(stop) else None
    decreases WINDOW - i
  {
    if i < stop { FirstStopIs(bs, loc, random, i + 1, stop); }
  }

  lemma {:induction false} StopExists(bs: seq<Bucket>, loc: nat, random: bool, i: nat)
    requires loc < |bs| && |bs| >= WINDOW
    ensures var f := FirstStop(bs, loc, random, i);
      if f.Some? then i <= f.value < WINDOW && Stops(At(bs, loc, f.value), random)
          && Passed(bs, loc, random, i, f.value)
      else i < WINDOW ==> Passed(bs, loc, random, i, WINDOW)
    decreases WINDOW - i
  {
    if i < WINDOW && !Stops(At(bs, loc, i), random) { StopExists(bs, loc, random, i + 1); }
  }

  /** How many lock ranges the window has left behind at the i-th probe. */
  function RangeIndex(loc: nat, i: nat, capacity: nat): nat
    requires loc < capacity && i < capacity
  {
    if i == 0 then 0 else RangeIndex(loc, i - 1, capacity) + if Slot(loc, i, capacity) % LOCK_SIZE == 0 then 1 else 0
  }

  lemma {:induction false} RangesGrow(loc: nat, i: nat, j: nat, capacity: nat)
    requires loc < capacity && i <= j < capacity
    ensures RangeIndex(loc, i, capacity) <= RangeIndex(loc, j, capacity)
    decreases j
  {
    if i < j { RangesGrow(loc, i, j - 1, capacity); }
  }

  /** A range the try locks, up to the one of the i-th probe, is already locked. */
  predicate MeetsLock(loc: nat, a: Attempt, i: nat, capacity: nat)
    requires loc < capacity && i < capacity
  {
    a.blocked.Some? && a.blocked.value <= RangeIndex(loc, i, capacity)
  }

  /** The victim variables a range's scan starts from: those of the try before, for the first range. */
  function Initial(lo: nat, start: Candidate): Candidate {
    if lo == 0 then start else NOBODY
  }

  /** The victim variables after the probes of [lo, hi), which all lie in one range. Random mode compares no
      timestamps. */
  ghost function Carried(bs: seq<Bucket>, loc: nat, random: bool, start: Candidate, lo: nat, hi: nat): Candidate
    requires loc < |bs| && hi <= |bs|
  {
    if random then Initial(lo, start) else Combine(Initial(lo, start), Best(bs, loc, lo, hi))
  }

  /** Those of the range before the one that begins at first. */
  ghost function Behind(bs: seq<Bucket>, loc: nat, random: bool, start: Candidate, first: nat): Candidate
    requires loc < |bs| && first <= |bs|
  {
    if first == 0 then NOBODY else Carried(bs, loc, random, start, SegmentBegin(loc, first - 1, |bs|), first)
  }

  /** A try's end: the slot to evict, or -1 to retry, and the victim variables left behind. */
  datatype TryEnd = TryEnd(slot: int, left: Candidate)

  /** How a try ends, from the variables the try before left behind: at the first range already locked, at
      the first busy entry, in random mode at the first entry, or at the window's end with the older of the
      victims of the last range and the one before. */
  ghost function TryEndOf(bs: seq<Bucket>, loc: nat, a: Attempt, random: bool, start: Candidate): TryEnd
    requires loc < |bs| && |bs| >= WINDOW
  {
    var f := FirstStop(bs, loc, random, 0);
    var stop := OrZero(f, WINDOW);
    var last := if f.Some? then stop else MAX_PROBING_LEN;
    var seg := SegmentBegin(loc, last, |bs|);
    if MeetsLock(loc, a, last, |bs|) then TryEnd(-1, Initial(a.blocked.value, start))
    else if f.Some? then
      TryEnd(if At(bs, loc, stop).busy then -1 else Slot(loc, stop, |bs|), Carried(bs, loc, random, start, seg, stop))
    else
      var best := Carried(bs, loc, random, start, seg, WINDOW);
      TryEnd(Pick(best, Behind(bs, loc, random, start, seg), a.prevFree), best)
  }

  /** The retry loop's end: the slot and how many tries it took, or -1. */
  datatype SearchEnd = SearchEnd(slot: int, tries: nat)

  /** The retry loop from the n-th try, with the variables left behind so far; from the fourth try on the mode
      is random. */
  ghost function SearchFrom(bs: seq<Bucket>, attempts: seq<Attempt>, n: nat, start: Candidate): SearchEnd
    requires |bs| >= WINDOW && n <= |attempts|
    decreases |attempts| - n
  {
    if n == |attempts| then SearchEnd(-1, n)
    else
      var e := TryEndOf(bs, attempts[n].random % |bs|, attempts[n], n > MAX_EVICT_RETRY, start);
      if e.slot != -1 then SearchEnd(e.slot, n + 1) else SearchFrom(bs, attempts, n + 1, e.left)
  }

  /** The entry at slot s, not busy, is turned into a tombstone. */
  ghost predicate Evicted(bs: seq<Bucket>, s: int, key: Key, bs': seq<Bucket>) {
    0 <= s < |bs| && bs[s].key == key && !Vacant(bs[s]) && !bs[s].busy && bs' == Kill(bs, s)
  }

  /** Where one range's scan ends, the next one's begins. */
  lemma NextRange(bs: seq<Bucket>, loc: nat, random: bool, start: Candidate, first: nat, last: nat)
    requires loc < |bs| && last + 1 < |bs| && Slot(loc, last + 1, |bs|) % LOCK_SIZE == 0
    requires SegmentBegin(loc, last, |bs|) == first
    ensures SegmentBegin(loc, last + 1, |bs|) == last + 1
    ensures RangeIndex(loc, last + 1, |bs|) == RangeIndex(loc, last, |bs|) + 1
    ensures Behind(bs, loc, random, start, last + 1) == Carried(bs, loc, random, start, first, last + 1)
  {
    hide Carried;
  }

  lemma ScanCarries(bs: seq<Bucket>, loc: nat, random: bool, start: Candidate, first: nat, hi: nat)
    requires loc < |bs| && first <= hi <= |bs|
    ensures Carried(bs, loc, random, start, first, hi) ==
      if random then Initial(first, start) else Combine(Initial(first, start), Best(bs, loc, first, hi))
  {
    hide Best, Combine;
  }

  lemma PassedOn(bs: seq<Bucket>, loc: nat, random: bool, lo: nat, hi: nat)
    requires loc < |bs| && lo <= hi <= |bs| && Passed(bs, loc, random, 0, lo) && Passed(bs, loc, random, lo, hi)
    ensures Passed(bs, loc, random, 0, hi)
  {
  }

  lemma EndsAtLock(bs: seq<Bucket>, loc: nat, a: Attempt, random: bool, start: Candidate, i: nat)
    requires loc < |bs| && |bs| >= WINDOW && i < WINDOW && Passed(bs, loc, random, 0, i)
    requires a.blocked == Some(RangeIndex(loc, i, |bs|))
    ensures TryEndOf(bs, loc, a, random, start) == TryEnd(-1, Initial(a.blocked.value, start))
  {
    hide Carried, Behind;
    StopExists(bs, loc, random, 0);
    var f := FirstStop(bs, loc, random, 0);
    RangesGrow(loc, i, if f.Some? then f.value else MAX_PROBING_LEN, |bs|);
  }

  lemma EndsAtStop(bs: seq<Bucket>, loc: nat, a: Attempt, random: bool, start: Candidate, i: nat)
    requires loc < |bs| && |bs| >= WINDOW && i < WINDOW && Passed(bs, loc, random, 0, i)
    requires Stops(At(bs, loc, i), random)
    requires !MeetsLock(loc, a, i, |bs|)
    ensures TryEndOf(bs, loc, a, random, start) ==
      TryEnd(if At(bs, loc, i).busy then -1 else Slot(loc, i, |bs|), Carried(bs, loc, random, start,
          SegmentBegin(loc, i, |bs|), i))
  {
    FirstStopIs(bs, loc, random, 0, i);
  }

  lemma EndsAtWindow(bs: seq<Bucket>, loc: nat, a: Attempt, random: bool, start: Candidate, first: nat)
    requires loc < |bs| && |bs| >= WINDOW && Passed(bs, loc, random, 0, WINDOW)
    requires !MeetsLock(loc, a, MAX_PROBING_LEN, |bs|)
    requires SegmentBegin(loc, MAX_PROBING_LEN, |bs|) == first
    ensures var best := Carried(bs, loc, random, start, first, WINDOW);
      TryEndOf(bs, loc, a, random, start) == TryEnd(Pick(best, Behind(bs, loc, random, start, first), a.prevFree), best)
  {
    FirstStopIs(bs, loc, random, 0, WINDOW);
  }

  // ---- Approximate LRU is exact on its window ----

  /** The entry at slot s is a least recently used one of the window. */
  ghost predicate LeastRecent(bs: seq<Bucket>, loc: nat, s: int)
    requires loc < |bs| && |bs| >= WINDOW
  {
    && 0 <= s < |bs| && !Vacant(bs[s])
    && forall e :: 0 <= e < WINDOW && !Vacant(At(bs, loc, e)) ==> bs[s].timestamp <= At(bs, loc, e).timestamp
  }

  /** A capacity divisible by 16 is enough for every window. */
  lemma RangesFit(loc: nat, capacity: nat)
    requires loc < capacity && capacity > WINDOW && capacity % LOCK_SIZE == 0
    ensures TwoRanges(loc, capacity)
  {
    TwoRangesIff(loc, capacity);
  }

  lemma FullWindowLands(bs: seq<Bucket>, loc: nat)
    requires loc < |bs| && |bs| >= WINDOW && !HasRoom(bs, loc)
    ensures Landing(bs, loc, true) == Landed(Slot(loc, OrZero(Victim(bs, loc, true), WINDOW), |bs|), false)
    ensures TwoRanges(loc, |bs|) ==> LeastRecent(bs, loc, Landing(bs, loc, true).slot)
  {
    RoomIsVacancy(bs, loc, true);
    if TwoRanges(loc, |bs|) { VictimIsOldest(bs, loc); }
    hide Victim, FirstVacant;
  }

  /** An insertion into a full window of at most two lock ranges replaces a least recently used entry of its
      16 slots, or, if that entry is busy, changes nothing. */
  lemma InsertReplacesOldest(bs: seq<Bucket>, hash: Hash, key: Key, value: Addr, now: Time)
    requires WellFormed(bs, hash) && TwoRanges(Home(hash, key, |bs|), |bs|)
    requires Storable(key) && key !in View(bs) && !HasRoom(bs, Home(hash, key, |bs|))
    ensures var loc := Home(hash, key, |bs|);
      var s := Landing(bs, loc, true).slot;
      LeastRecent(bs, loc, s) &&
      InsertInto(bs, hash, key, value, now, true) ==
        (if bs[s].busy then Inserted(bs, -1, key, value)
         else Inserted(Fill(bs, s, key, value, now), 0, bs[s].key, bs[s].value))
  {
    hide View, Unique, Reachable, Find, Victim, FirstVacant, InsertInto, TwoRanges, HasRoom;
    var loc := Home(hash, key, |bs|);
    FullWindowLands(bs, loc);
    DeleteIsRemoval(bs, hash, key);
    InsertByProbe(bs, hash, key, value, now, true, Landing(bs, loc, true).slot, false);
  }

  /** A least recently used entry of the key's window was replaced, or it was busy and nothing changed. */
  ghost predicate ReplacedOldest(bs: seq<Bucket>, hash: Hash, key: Key, value: Addr, now: Time, ret: int,
                                 bs': seq<Bucket>) {
    |bs| >= WINDOW && exists s: nat :: s < |bs| && Replaced(bs, Home(hash, key, |bs|), s, key, value, now, ret, bs')
  }

  ghost predicate Replaced(bs: seq<Bucket>, loc: nat, s: nat, key: Key, value: Addr, now: Time, ret: int,
                           bs': seq<Bucket>)
    requires loc < |bs| && |bs| >= WINDOW && s < |bs|
  {
    && LeastRecent(bs, loc, s)
    && if bs[s].busy then ret == -1 && bs' == bs
       else ret == 0 && bs' == bs[s := Bucket(key, value, now, false)]
  }

  lemma InsertOldest(bs: seq<Bucket>, hash: Hash, key: Key, value: Addr, now: Time, prevFree: bool)
    requires WellFormed(bs, hash) && Storable(key) && key !in View(bs) && !HasRoom(bs, Home(hash, key, |bs|))
    requires prevFree && TwoRanges(Home(hash, key, |bs|), |bs|)
    ensures var r := InsertInto(bs, hash, key, value, now, prevFree);
      ReplacedOldest(bs, hash, key, value, now, r.ret, r.table)
  {
    hide View, Unique, Reachable, TwoRanges, HasRoom, InsertInto, LeastRecent;
    InsertReplacesOldest(bs, hash, key, value, now);
    var s := Landing(bs, Home(hash, key, |bs|), true).slot;
    assert 0 <= s < |bs| by { LeastRecentInside(bs, Home(hash, key, |bs|), s); }
    var r := InsertInto(bs, hash, key, value, now, prevFree);
    assert Replaced(bs, Home(hash, key, |bs|), s, key, value, now, r.ret, r.table);
  }

  lemma LeastRecentInside(bs: seq<Bucket>, loc: nat, s: int)
    requires loc < |bs| && |bs| >= WINDOW && LeastRecent(bs, loc, s)
    ensures 0 <= s < |bs|
  {
  }

  /** The victim of a full window is a least recently used entry. */
  ghost predicate ReplacesOldest(bs: seq<Bucket>, loc: nat)
    requires loc < |bs| && |bs| >= WINDOW
  {
    !HasRoom(bs, loc) ==> LeastRecent(bs, loc, Landing(bs, loc, true).slot)
  }

  /** A table whose window from loc is full, its first entry older than all the others. */
  function OldFirst(loc: nat, capacity: nat): (bs: seq<Bucket>)
    requires loc < capacity && capacity >= WINDOW
    ensures |bs| == capacity
  {
    seq(capacity, s requires 0 <= s < capacity =>
      var i := Offset(loc, s, capacity);
      if i < WINDOW then Bucket(i, 1, if i == 0 then 0 else 1, false) else EMPTY)
  }

  lemma OldFirstAt(loc: nat, capacity: nat, i: nat)
    requires loc < capacity && capacity >= WINDOW && i < WINDOW
    ensures At(OldFirst(loc, capacity), loc, i) == Bucket(i, 1, if i == 0 then 0 else 1, false)
  {
    assert Offset(loc, Slot(loc, i, capacity), capacity) == i;
  }

  lemma OldFirstUnique(loc: nat, capacity: nat)
    requires loc < capacity && capacity >= WINDOW
    ensures Unique(OldFirst(loc, capacity))
    ensures forall s :: 0 <= s < capacity && !Vacant(OldFirst(loc, capacity)[s]) ==> Offset(loc, s, capacity) < WINDOW
  {
    forall s: nat, t: nat | s < capacity && t < capacity && Offset(loc, s, capacity) == Offset(loc, t, capacity)
      ensures s == t
    {
      assert Slot(loc, Offset(loc, s, capacity), capacity) == s;
    }
  }

  lemma OldFirstIs(loc: nat, capacity: nat)
    requires loc < capacity && capacity >= WINDOW
    ensures WellFormed(OldFirst(loc, capacity), k => loc) && !HasRoom(OldFirst(loc, capacity), loc)
  {
    var bs, hash := OldFirst(loc, capacity), k => loc;
    OldFirstUnique(loc, capacity);
    hide Unique;
    forall s | 0 <= s < |bs| && !Vacant(bs[s]) ensures Reachable(bs, hash, s) && bs[s].value != NONE {
      OldFirstReaches(loc, capacity, s);
    }
    hide Reachable;
    forall e | 0 <= e < WINDOW ensures !Vacant(At(bs, loc, e)) { OldFirstAt(loc, capacity, e); }
  }

  lemma HomeIs(loc: nat, key: Key, capacity: nat)
    requires loc < capacity
    ensures Home(k => loc, key, capacity) == loc
  {
    Quotient(0, capacity, loc);
  }

  lemma OldFirstReaches(loc: nat, capacity: nat, s: nat)
    requires loc < capacity && capacity >= WINDOW && s < capacity && Offset(loc, s, capacity) < WINDOW
    ensures Reachable(OldFirst(loc, capacity), k => loc, s)
  {
    var bs := OldFirst(loc, capacity);
    HomeIs(loc, bs[s].key, capacity);
    hide Home;
    forall e | 0 <= e < Offset(loc, s, capacity) ensures At(bs, loc, e).key != INVALID { OldFirstAt(loc, capacity, e); }
  }

  /** Approximate LRU is exact on a window exactly when the window touches at most two lock ranges: then in
      every table the victim of the full window is a least recently used entry, and otherwise not in every
      well-formed one. */
  lemma ExactIffTwoRanges(loc: nat, capacity: nat)
    requires loc < capacity && capacity >= WINDOW
    ensures TwoRanges(loc, capacity) ==> forall bs: seq<Bucket> :: |bs| == capacity ==> ReplacesOldest(bs, loc)
    ensures !TwoRanges(loc, capacity) ==>
      WellFormed(OldFirst(loc, capacity), k => loc) && !ReplacesOldest(OldFirst(loc, capacity), loc)
  {
    forall bs: seq<Bucket> | |bs| == capacity && TwoRanges(loc, capacity) ensures ReplacesOldest(bs, loc) {
      if !HasRoom(bs, loc) { FullWindowLands(bs, loc); }
    }
    if !TwoRanges(loc, capacity) {
      var bs := OldFirst(loc, capacity);
      OldFirstIs(loc, capacity);
      FullWindowLands(bs, loc);
      ThreeRangesForget(bs, loc);
      RoomIsVacancy(bs, loc, true);
      hide Victim, TwoRanges, OldFirst;
      OldFirstAt(loc, capacity, Victim(bs, loc, true).value);
      OldFirstAt(loc, capacity, 0);
    }
  }

  /** No entry of the window is busy. */
  ghost predicate Quiet(bs: seq<Bucket>, loc: nat)
    requires loc < |bs| && |bs| >= WINDOW
  {
    Passed(bs, loc, false, 0, WINDOW)
  }

  /** A try outside random mode that meets no busy entry leaves nothing behind if it fails, and evicts a least
      recently used entry of a window of at most two ranges, if the first of them can be locked again. */
  lemma QuietTry(bs: seq<Bucket>, loc: nat, a: Attempt)
    requires loc < |bs| && |bs| >= WINDOW && Quiet(bs, loc)
    ensures var e := TryEndOf(bs, loc, a, false, NOBODY);
      if e.slot == -1 then e.left == NOBODY else a.prevFree && TwoRanges(loc, |bs|) ==> LeastRecent(bs, loc, e.slot)
  {
    if TwoRanges(loc, |bs|) { VictimIsOldest(bs, loc); }
    FirstStopIs(bs, loc, false, 0, WINDOW);
    VictimByLoop(bs, loc, SegmentBegin(loc, MAX_PROBING_LEN, |bs|), a.prevFree);
    hide Victim, Oldest, SegmentBegin, FirstStop, RangeIndex;
  }

  // ---- What the retry loop finds, in plain terms ----

  /** No range of the try's window is locked, and no entry of it busy. */
  ghost predicate Undisturbed(bs: seq<Bucket>, a: Attempt)
    requires |bs| >= WINDOW
  {
    var loc := a.random % |bs|;
    a.blocked.None? && forall e :: 0 <= e < WINDOW && !Vacant(At(bs, loc, e)) ==> !At(bs, loc, e).busy
  }

  /** The e-th probe of a window is its first entry. */
  ghost predicate FirstEntry(bs: seq<Bucket>, loc: nat, e: nat)
    requires loc < |bs| && |bs| >= WINDOW
  {
    e < WINDOW && !Vacant(At(bs, loc, e)) && forall d :: 0 <= d < e ==> Vacant(At(bs, loc, d))
  }

  /** Try n must find a victim: undisturbed, one of the first three with an entry in its window's last range; or, from
      the fourth on, unlocked and with a first entry that is not busy. */
  ghost predicate Offers(bs: seq<Bucket>, a: Attempt, n: nat)
    requires |bs| >= WINDOW
  {
    var loc := a.random % |bs|;
    if n < 3 then Undisturbed(bs, a) && exists e :: 0 <= e < WINDOW && !Vacant(At(bs, loc, e)) && InLast(loc, e, |bs|)
    else a.blocked.None? && exists e: nat :: FirstEntry(bs, loc, e) && !At(bs, loc, e).busy
  }

  /** No try must find a victim. */
  ghost predicate NoneOffers(bs: seq<Bucket>, attempts: seq<Attempt>)
    requires |bs| >= WINDOW
  {
    forall n :: 0 <= n < |attempts| ==> !Offers(bs, attempts[n], n)
  }

  /** The slot lies in the window of the try. */
  ghost predicate InWindow(a: Attempt, s: int, capacity: nat)
    requires capacity >= WINDOW
  {
    exists e :: 0 <= e < WINDOW && s == Slot(a.random % capacity, e, capacity)
  }

  /** What a try that ends the search may evict: the first entry of its window from the fourth try on; before, with
      no entry of the window busy, one that no entry of the ranges to choose from is older than. */
  ghost predicate MayEvict(bs: seq<Bucket>, a: Attempt, n: nat, s: int)
    requires |bs| >= WINDOW
  {
    var loc := a.random % |bs|;
    && 0 <= s < |bs| && !Vacant(bs[s]) && !bs[s].busy && a.blocked != Some(0)
    && if n < 3 then
         && (forall e :: 0 <= e < WINDOW && !Vacant(At(bs, loc, e)) ==> !At(bs, loc, e).busy)
         && NoneOlder(bs, loc, a.prevFree, bs[s].timestamp)
       else forall e: nat :: FirstEntry(bs, loc, e) ==> s == Slot(loc, e, |bs|)
  }

  lemma BestIsOldest(bs: seq<Bucket>, loc: nat, lo: nat, hi: nat)
    requires loc < |bs| && lo <= hi <= WINDOW <= |bs|
    ensures var b := Best(bs, loc, lo, hi);
      && (b.slot == -1 ==> b == NOBODY && forall e :: lo <= e < hi ==> Vacant(At(bs, loc, e)))
      && (b.slot != -1 ==> exists e :: lo <= e < hi && !Vacant(At(bs, loc, e)) && b.slot == Slot(loc, e, |bs|))
      && forall e :: lo <= e < hi && !Vacant(At(bs, loc, e)) ==> b.timestamp <= At(bs, loc, e).timestamp
  {
    OldestIs(bs, loc, lo, hi);
  }

  /** The victim variables c after the probes of [lo, hi), which lie in one range. */
  ghost predicate RangeLawful(bs: seq<Bucket>, loc: nat, start: Candidate, lo: nat, hi: nat, c: Candidate)
    requires loc < |bs| && lo <= hi <= WINDOW <= |bs|
  {
    && Current(bs, c)
    && (c.slot != -1 ==> (lo == 0 && c == start) || exists e :: 0 <= e < WINDOW && c.slot == Slot(loc, e, |bs|))
    && (forall e :: lo <= e < hi && !Vacant(At(bs, loc, e)) ==> c.slot != -1 && c.timestamp <= At(bs, loc, e).timestamp)
    && ((forall e :: lo <= e < hi ==> Vacant(At(bs, loc, e))) ==> c == Initial(lo, start))
  }

  lemma RangeLaw(bs: seq<Bucket>, loc: nat, random: bool, start: Candidate, lo: nat, hi: nat)
    requires loc < |bs| && lo <= hi <= WINDOW <= |bs| && Current(bs, start) && Passed(bs, loc, random, lo, hi)
    ensures RangeLawful(bs, loc, start, lo, hi, Carried(bs, loc, random, start, lo, hi))
  {
    BestIsOldest(bs, loc, lo, hi);
    OldestIs(bs, loc, lo, hi);
    hide Oldest;
  }

  /** A try that reaches its window's end, with the variables best and the victim s: none the victim may be chosen
      from is older, and there is one if the last range has an entry. */
  ghost predicate EndLawful(bs: seq<Bucket>, loc: nat, start: Candidate, prevFree: bool, best: Candidate, s: int)
    requires loc < |bs| && |bs| >= WINDOW
  {
    && Current(bs, best) && (s == -1 <==> best.slot == -1)
    && (best.slot != -1 ==> best == start || exists e :: 0 <= e < WINDOW && best.slot == Slot(loc, e, |bs|))
    && (s != -1 ==> 0 <= s < |bs| && !Vacant(bs[s]) && !bs[s].busy && NoneOlder(bs, loc, prevFree, bs[s].timestamp))
    && (s != -1 ==> s == start.slot || exists e :: 0 <= e < WINDOW && s == Slot(loc, e, |bs|))
    && (forall e :: 0 <= e < WINDOW && !Vacant(At(bs, loc, e)) && InLast(loc, e, |bs|) ==> s != -1)
    && ((forall e :: 0 <= e < WINDOW && InLast(loc, e, |bs|) ==> Vacant(At(bs, loc, e))) && start == NOBODY ==>
          best == NOBODY)
  }

  lemma EndPick(bs: seq<Bucket>, loc: nat, start: Candidate, prevFree: bool, before: nat, seg: nat, best: Candidate,
                prev: Candidate)
    requires loc < |bs| && before <= seg <= WINDOW <= |bs|
    requires forall d :: 0 <= d < WINDOW ==> (InLast(loc, d, |bs|) <==> seg <= d)
    requires forall d :: 0 <= d < WINDOW ==> (InLastTwo(loc, d, |bs|) <==> before <= d)
    requires RangeLawful(bs, loc, start, seg, WINDOW, best)
    requires if seg == 0 then prev == NOBODY else RangeLawful(bs, loc, start, before, seg, prev)
    ensures EndLawful(bs, loc, start, prevFree, best, Pick(best, prev, prevFree))
  {
    hide InLast, InLastTwo;
  }

  lemma EndLaw(bs: seq<Bucket>, loc: nat, random: bool, start: Candidate, prevFree: bool)
    requires loc < |bs| && |bs| >= WINDOW && Current(bs, start) && Passed(bs, loc, random, 0, WINDOW)
    ensures var seg := SegmentBegin(loc, MAX_PROBING_LEN, |bs|);
      var best := Carried(bs, loc, random, start, seg, WINDOW);
      EndLawful(bs, loc, start, prevFree, best, Pick(best, Behind(bs, loc, random, start, seg), prevFree))
  {
    var seg := SegmentBegin(loc, MAX_PROBING_LEN, |bs|);
    var before := if seg == 0 then 0 else SegmentBegin(loc, seg - 1, |bs|);
    SegmentIsLast(loc, |bs|);
    RangeLaw(bs, loc, random, start, seg, WINDOW);
    if seg > 0 { RangeLaw(bs, loc, random, start, before, seg); }
    hide InLast, InLastTwo, Carried, RangeLawful, EndLawful, Pick;
    EndPick(bs, loc, start, prevFree, before, seg, Carried(bs, loc, random, start, seg, WINDOW),
            Behind(bs, loc, random, start, seg));
  }

  /** What one try leaves behind and what it evicts. */
  ghost predicate TryLawful(bs: seq<Bucket>, a: Attempt, n: nat, start: Candidate, e: TryEnd)
    requires |bs| >= WINDOW
  {
    && Current(bs, e.left) && (e.left.slot != -1 ==> e.left.slot == start.slot || InWindow(a, e.left.slot, |bs|))
    && (Offers(bs, a, n) ==> e.slot != -1)
    && (e.slot != -1 ==> MayEvict(bs, a, n, e.slot) && (e.slot == start.slot || InWindow(a, e.slot, |bs|)))
    && (start == NOBODY && Undisturbed(bs, a) ==> if e.slot == -1 then e.left == NOBODY else Offers(bs, a, n))
  }

  lemma TryLaw(bs: seq<Bucket>, a: Attempt, n: nat, start: Candidate)
    requires |bs| >= WINDOW && Current(bs, start)
    ensures TryLawful(bs, a, n, start, TryEndOf(bs, a.random % |bs|, a, n > MAX_EVICT_RETRY, start))
  {
    var loc, random := a.random % |bs|, n > MAX_EVICT_RETRY;
    StopExists(bs, loc, random, 0);
    var f := FirstStop(bs, loc, random, 0);
    var last := if f.Some? then f.value else MAX_PROBING_LEN;
    if MeetsLock(loc, a, last, |bs|) {
      hide Carried;
    } else if f.Some? {
      StopLaw(bs, a, n, start, f.value);
    } else {
      EndLaw(bs, loc, random, start, a.prevFree);
      EndTry(bs, a, n, start, TryEndOf(bs, loc, a, random, start));
      hide Carried, Behind, SegmentBegin, EndLawful, TryLawful, Pick, FirstStop;
    }
  }

  lemma EndTry(bs: seq<Bucket>, a: Attempt, n: nat, start: Candidate, e: TryEnd)
    requires |bs| >= WINDOW && EndLawful(bs, a.random % |bs|, start, a.prevFree, e.left, e.slot)
    requires Passed(bs, a.random % |bs|, n > MAX_EVICT_RETRY, 0, WINDOW) && a.blocked != Some(0)
    ensures TryLawful(bs, a, n, start, e)
  {
    hide InLast, InLastTwo, NoneOlder;
  }

  lemma StopLaw(bs: seq<Bucket>, a: Attempt, n: nat, start: Candidate, stop: nat)
    requires |bs| >= WINDOW && Current(bs, start) && stop < WINDOW
    requires var loc, random := a.random % |bs|, n > MAX_EVICT_RETRY;
      && Passed(bs, loc, random, 0, stop) && Stops(At(bs, loc, stop), random) && !MeetsLock(loc, a, stop, |bs|)
    ensures TryLawful(bs, a, n, start, TryEndOf(bs, a.random % |bs|, a, n > MAX_EVICT_RETRY, start))
  {
    var loc, random := a.random % |bs|, n > MAX_EVICT_RETRY;
    EndsAtStop(bs, loc, a, random, start, stop);
    RangeLaw(bs, loc, random, start, SegmentBegin(loc, stop, |bs|), stop);
    hide Carried, SegmentBegin, InLast, TryEndOf;
    assert random && !At(bs, loc, stop).busy ==> FirstEntry(bs, loc, stop);
  }

  /** The slot lies in the window of one of the first n tries. */
  ghost predicate FromTries(bs: seq<Bucket>, attempts: seq<Attempt>, n: nat, s: int)
    requires |bs| >= WINDOW && n <= |attempts|
  {
    exists m :: 0 <= m < n && InWindow(attempts[m], s, |bs|)
  }

  ghost predicate AllUndisturbed(bs: seq<Bucket>, attempts: seq<Attempt>, n: nat)
    requires |bs| >= WINDOW && n <= |attempts|
  {
    forall m :: 0 <= m < n ==> Undisturbed(bs, attempts[m])
  }

  /** The retry loop stops at the first try that must find a victim, or before; what it evicts, its last try may; and
      if no try is disturbed, it stops exactly at the first that must find one. */
  ghost predicate SearchLawful(bs: seq<Bucket>, attempts: seq<Attempt>, slot: int, tries: nat)
    requires |bs| >= WINDOW
  {
    && tries <= |attempts| && (slot == -1 ==> tries == |attempts|)
    && (forall n :: 0 <= n < |attempts| && Offers(bs, attempts[n], n) ==> slot != -1 && tries <= n + 1)
    && (slot != -1 ==>
          tries > 0 && MayEvict(bs, attempts[tries - 1], tries - 1, slot) && FromTries(bs, attempts, tries, slot))
    && (slot != -1 && AllUndisturbed(bs, attempts, tries) ==>
          Offers(bs, attempts[tries - 1], tries - 1) && InWindow(attempts[tries - 1], slot, |bs|))
  }

  lemma {:induction false} SearchLaw(bs: seq<Bucket>, attempts: seq<Attempt>, n: nat, start: Candidate)
    requires |bs| >= WINDOW && n <= |attempts| && Current(bs, start)
    requires start.slot != -1 ==> FromTries(bs, attempts, n, start.slot)
    requires AllUndisturbed(bs, attempts, n) ==> start == NOBODY
    requires forall m :: 0 <= m < n ==> !Offers(bs, attempts[m], m)
    ensures var e := SearchFrom(bs, attempts, n, start); SearchLawful(bs, attempts, e.slot, e.tries)
    decreases |attempts| - n
  {
    hide TryEndOf, Offers, MayEvict, InWindow, Undisturbed;
    if n < |attempts| {
      var a := attempts[n];
      TryLaw(bs, a, n, start);
      var e := TryEndOf(bs, a.random % |bs|, a, n > MAX_EVICT_RETRY, start);
      if e.slot == -1 { SearchLaw(bs, attempts, n + 1, e.left); }
    }
  }

  lemma FailedSearch(bs: seq<Bucket>, attempts: seq<Attempt>, slot: int, tries: nat)
    requires |bs| >= WINDOW && SearchLawful(bs, attempts, slot, tries)
    ensures slot == -1 ==> NoneOffers(bs, attempts)
  {
  }

  /** An eviction that finishes within three tries, the last over a window of at most two ranges the first of which
      can be locked again, evicts an entry no older than any of that window, whatever the tries before met. */
  lemma SearchFindsOldest(bs: seq<Bucket>, attempts: seq<Attempt>)
    requires |bs| >= WINDOW
    ensures var e := SearchFrom(bs, attempts, 0, NOBODY);
      e.slot != -1 && e.tries <= 3 ==>
        && 0 < e.tries <= |attempts|
        && var a := attempts[e.tries - 1];
           a.prevFree && TwoRanges(a.random % |bs|, |bs|) ==> LeastRecent(bs, a.random % |bs|, e.slot)
  {
    SearchLaw(bs, attempts, 0, NOBODY);
    var e := SearchFrom(bs, attempts, 0, NOBODY);
    hide SearchFrom, Offers, FromTries;
    if e.slot != -1 { TwoRangesPlain(attempts[e.tries - 1].random % |bs|, |bs|); }
    hide TwoRanges;
  }

  lemma {:induction false} SearchBounds(bs: seq<Bucket>, attempts: seq<Attempt>, n: nat, start: Candidate)
    requires |bs| >= WINDOW && n <= |attempts|
    ensures var e := SearchFrom(bs, attempts, n, start);
      n <= e.tries <= |attempts| && (e.slot == -1 ==> e.tries == |attempts|) && (e.slot != -1 ==> e.tries > n)
    decreases |attempts| - n
  {
    hide TryEndOf;
    if n < |attempts| {
      var e := TryEndOf(bs, attempts[n].random % |bs|, attempts[n], n > MAX_EVICT_RETRY, start);
      if e.slot == -1 { SearchBounds(bs, attempts, n + 1, e.left); }
    }
  }

  // ---- The table ----

  class LinearProbingApprox {
    const capacity: nat
    const buckets: array<Bucket>
    const hash: Hash

    ghost predicate Valid()
      reads this, buckets
    {
      capacity == buckets.Length && WellFormed(buckets[..], hash)
    }

    ghost function Map(): map<Key, Addr>
      reads this, buckets
      requires Valid()
    {
      View(buckets[..])
    }

    /** Some slot of the key's window is vacant. */
    ghost predicate RoomFor(key: Key)
      requires Valid()
      reads this, buckets
    {
      HasRoom(buckets[..], Home(hash, key, capacity))
    }

    /** No entry is marked busy, as under the exclusive policy none ever is. */
    ghost predicate Calm()
      reads buckets
    {
      NoBusy(buckets[..])
    }

    /** Reserved keys and the null value never appear in the map. */
    lemma MapStorable()
      requires Valid()
      ensures forall k :: k in Map() ==> Storable(k) && Map()[k] != NONE
    {
      forall k | k in Map() ensures Storable(k) && Map()[k] != NONE { var s := SlotOf(buckets[..], k); }
    }

    constructor (capacity: nat, hash: Hash)
      requires capacity >= WINDOW
      ensures Valid() && fresh(buckets) && Map() == map[] && Calm()
      ensures this.capacity == capacity && this.hash == hash
    {
      this.capacity := capacity;
      this.hash := hash;
      this.buckets := new Bucket[capacity](_ => EMPTY);
    }

    /** A probe loop over lock ranges: the inner loop ends where the next slot starts another range. */
    method Delete(key: Key) returns (value: Addr)
      requires Valid() && Storable(key)
      modifies buckets
      ensures Valid()
      ensures Deleted(buckets[..], value) == DeleteFrom(old(buckets[..]), hash, key)
      ensures Map() == old(Map()) - {key}
      ensures value == if key in old(Map()) then old(Map())[key] else NONE
      ensures key in old(Map()) ==>
        exists s: nat :: s < capacity && old(buckets[..])[s].key == key &&
          buckets[..] == old(buckets[..])[s := old(buckets[..])[s].(key := TOMBSTONE)]
      ensures key !in old(Map()) ==> buckets[..] == old(buckets[..])
      ensures old(Calm()) ==> Calm()
    {
      ghost var bs := buckets[..];
      ghost var s := TouchesOne(bs, hash, key, false, 0);
      value := DeleteProbe(key);
      DeleteIsRemoval(bs, hash, key);
    }

    method DeleteProbe(key: Key) returns (value: Addr)
      requires capacity == buckets.Length && capacity >= WINDOW
      modifies buckets
      ensures Deleted(buckets[..], value) == DeleteFrom(old(buckets[..]), hash, key)
    {
      hide Home, Probe;
      value := NONE;
      var loc := Home(hash, key, capacity);
      var i := 0;
      ghost var bs := buckets[..];
      assert Home(hash, key, |bs|) == loc;
      while i < capacity
        invariant i < WINDOW
        invariant buckets[..] == bs && value == NONE
        invariant Find(bs, loc, key, 0) == Find(bs, loc, key, i)
      {
        var slot := Probe(loc, i, capacity);
        ghost var first := i;
        var inRange := true;
        while inRange
          invariant i < WINDOW && slot == Slot(loc, i, capacity)
          invariant first < i || inRange
          invariant buckets[..] == bs && value == NONE
          invariant Find(bs, loc, key, 0) == Find(bs, loc, key, i)
          decreases WINDOW - i
        {
          assert buckets[slot] == At(bs, loc, i);
          if buckets[slot].key == key {
            value := buckets[slot].value;
            buckets[slot] := buckets[slot].(key := TOMBSTONE);
            assert buckets[..] == Kill(bs, slot);
            return;
          } else if buckets[slot].key == INVALID {
            return;
          }
          if i >= MAX_PROBING_LEN {
            return;
          }
          i := i + 1;
          slot := Probe(loc, i, capacity);
          inRange := slot % LOCK_SIZE != 0;
        }
      }
    }

    method Get(key: Key, now: Time) returns (value: Addr)
      requires Valid() && Storable(key)
      modifies buckets
      ensures Valid() && Map() == old(Map())
      ensures value == if key in Map() then Map()[key] else NONE
      ensures buckets[..] == Stamped(old(buckets[..]), hash, key, now)
      ensures key in Map() ==>
        exists s: nat :: s < capacity && old(buckets[..])[s].key == key &&
          buckets[..] == old(buckets[..])[s := old(buckets[..])[s].(timestamp := now)]
      ensures key !in Map() ==> buckets[..] == old(buckets[..])
    {
      ghost var bs := buckets[..];
      ghost var s := TouchesOne(bs, hash, key, false, now);
      StampedKeeps(bs, hash, key, now);
      value := GetProbe(key, now);
    }

    method GetProbe(key: Key, now: Time) returns (value: Addr)
      requires capacity == buckets.Length && capacity >= WINDOW
      modifies buckets
      ensures buckets[..] == Stamped(old(buckets[..]), hash, key, now)
      ensures value == Looked(old(buckets[..]), hash, key)
    {
      hide Home, Probe;
      ghost var bs := buckets[..];
      value := NONE;
      var loc := Home(hash, key, capacity);
      assert Home(hash, key, |bs|) == loc;
      var i := 0;
      while i < capacity
        invariant i < WINDOW && buckets[..] == bs && value == NONE
        invariant Find(bs, loc, key, 0) == Find(bs, loc, key, i)
      {
        var slot := Probe(loc, i, capacity);
        assert slot == Slot(loc, i, |bs|) && buckets[slot] == At(bs, loc, i);
        if buckets[slot].key == key {
          value := buckets[slot].value;
          buckets[slot] := buckets[slot].(timestamp := now);
          assert buckets[..] == bs[slot := bs[slot].(timestamp := now)];
          break;
        } else if buckets[slot].key == INVALID {
          break;
        }
        if i >= MAX_PROBING_LEN {
          break;
        }
        i := i + 1;
      }
    }

    /** Marks a found page busy and hands it out, or clears the mark and hands out nothing. */
    method GetWithFlag(key: Key, busy: bool, now: Time) returns (value: Addr)
      requires Valid() && Storable(key)
      modifies buckets
      ensures Valid() && Map() == old(Map())
      ensures value == if busy && key in Map() then Map()[key] else NONE
      ensures buckets[..] == Flagged(old(buckets[..]), hash, key, busy, now)
      ensures key in Map() ==>
        exists s: nat :: s < capacity && old(buckets[..])[s].key == key &&
          var b := old(buckets[..])[s];
          buckets[..] == old(buckets[..])[s := b.(busy := busy, timestamp := if busy then now else b.timestamp)]
      ensures key !in Map() ==> buckets[..] == old(buckets[..])
    {
      ghost var bs := buckets[..];
      ghost var s := TouchesOne(bs, hash, key, busy, now);
      FlaggedKeeps(bs, hash, key, busy, now);
      value := FlagProbe(key, busy, now);
    }

    method FlagProbe(key: Key, busy: bool, now: Time) returns (value: Addr)
      requires capacity == buckets.Length && capacity >= WINDOW
      modifies buckets
      ensures buckets[..] == Flagged(old(buckets[..]), hash, key, busy, now)
      ensures value == if busy then Looked(old(buckets[..]), hash, key) else NONE
    {
      hide Home, Probe;
      ghost var bs := buckets[..];
      value := NONE;
      var loc := Home(hash, key, capacity);
      assert Home(hash, key, |bs|) == loc;
      var i := 0;
      while i < capacity
        invariant i < WINDOW && buckets[..] == bs && value == NONE
        invariant Find(bs, loc, key, 0) == Find(bs, loc, key, i)
      {
        var slot := Probe(loc, i, capacity);
        assert slot == Slot(loc, i, |bs|) && buckets[slot] == At(bs, loc, i);
        if buckets[slot].key == key {
          ghost var b := if busy then bs[slot].(busy := true, timestamp := now) else bs[slot].(busy := false);
          buckets[slot] := buckets[slot].(busy := busy);
          if busy {
            value := buckets[slot].value;
            buckets[slot] := buckets[slot].(timestamp := now);
          }
          assert buckets[..] == bs[slot := b];
          break;
        }
        if buckets[slot].key == INVALID {
          break;
        }
        if i >= MAX_PROBING_LEN {
          break;
        }
        i := i + 1;
      }
    }

    method SetBucket(slot: nat, key: Key, value: Addr, now: Time)
      requires slot < buckets.Length
      modifies buckets
      ensures buckets[..] == old(buckets[..])[slot := Bucket(key, value, now, old(buckets[slot].busy))]
    {
      buckets[slot] := buckets[slot].(key := key, value := value, timestamp := now);
    }

    method CollEvict(key: Key, value: Addr, now: Time, victimSlot: nat) returns (evKey: Key, evValue: Addr)
      requires victimSlot < buckets.Length
      modifies buckets
      ensures buckets[..] == old(buckets[..])[victimSlot := Bucket(key, value, now, old(buckets[victimSlot].busy))]
      ensures evKey == old(buckets[victimSlot].key) && evValue == old(buckets[victimSlot].value)
    {
      evKey, evValue := buckets[victimSlot].key, buckets[victimSlot].value;
      SetBucket(victimSlot, key, value, now);
    }

    /** A busy victim refuses the caller's pair; any other is swapped out. */
    method ReplaceVictim(key: Key, value: Addr, now: Time, victimSlot: nat) returns (ret: int, evKey: Key,
                         evValue: Addr)
      requires victimSlot < buckets.Length
      modifies buckets
      ensures Inserted(buckets[..], ret, evKey, evValue) ==
        if old(buckets[victimSlot].busy) then Inserted(old(buckets[..]), -1, key, value)
        else Inserted(Fill(old(buckets[..]), victimSlot, key, value, now), 0, old(buckets[victimSlot].key),
            old(buckets[victimSlot].value))
    {
      ret := 0;
      if buckets[victimSlot].busy {
        ret, evKey, evValue := -1, key, value;
      } else {
        evKey, evValue := CollEvict(key, value, now, victimSlot);
      }
    }

    method Insert(key: Key, value: Addr, now: Time, prevFree: bool) returns (ret: int, evKey: Key, evValue: Addr)
      requires Valid() && Storable(key) && value != NONE
      modifies buckets
      ensures Valid()
      ensures Inserted(buckets[..], ret, evKey, evValue) ==
        InsertInto(old(buckets[..]), hash, key, value, now, prevFree)
      ensures var r := Inserted(buckets[..], ret, evKey, evValue);
        || DuplicateReturned(old(Map()), r, Map(), key)
        || Added(old(Map()), r, Map(), key, value)
        || AddedEvicting(old(Map()), r, Map(), key, value)
        || Refused(old(Map()), r, Map(), key, value)
      ensures key in old(Map()) ==>
        exists s: nat :: s < capacity && old(buckets[..])[s].key == key &&
          buckets[..] == old(buckets[..])[s := old(buckets[..])[s].(key := TOMBSTONE)]
      ensures key !in old(Map()) && ret == 0 ==>
        exists e: nat :: e < WINDOW &&
          var s := Slot(Home(hash, key, capacity), e, capacity);
          buckets[..] == old(buckets[..])[s := Bucket(key, value, now, old(buckets[..])[s].busy)]
      ensures key !in old(Map()) ==>
        exists e: nat :: e < WINDOW &&
          WritesNew(old(buckets[..]), Home(hash, key, capacity), key, value, now, prevFree,
                    Inserted(buckets[..], ret, evKey, evValue), e)
      ensures key in old(Map()) ==> RoomFor(key)
      ensures key !in old(Map()) && old(RoomFor(key)) ==> ret == 0 && evValue == NONE
      ensures TwoRanges(Home(hash, key, capacity), capacity) && prevFree && key !in old(Map()) && !old(RoomFor(key)) ==>
        ReplacedOldest(old(buckets[..]), hash, key, value, now, ret, buckets[..])
      ensures key !in old(Map()) && ret == 0 && evKey != INVALID ==>
        Chosen(old(buckets[..]), hash, key, prevFree, evKey)
      ensures old(Calm()) ==> Calm() && ret == 0
    {
      hide View, Unique, Reachable, TwoRanges, HasRoom, ReplacedOldest, Chosen, NoBusy, InsertInto, Home;
      ghost var bs := buckets[..];
      InsertOutcomes(bs, hash, key, value, now, prevFree);
      InsertChooses(bs, hash, key, value, now, prevFree);
      ghost var e := InsertTouches(bs, hash, key, value, now, prevFree);
      if key in View(bs) {
        DuplicateLeavesRoom(bs, hash, key);
        InsertStops(bs, hash, key, value, now, prevFree) by { DeleteIsRemoval(bs, hash, key); }
      } else if prevFree && TwoRanges(Home(hash, key, capacity), capacity) && !HasRoom(bs, Home(hash, key, capacity)) {
        InsertOldest(bs, hash, key, value, now, prevFree);
      }
      ret, evKey, evValue := InsertProbe(key, value, now, prevFree);
    }

    /** evKey starts as INVALID and evValue as NONE, as the caller passes them in. */
    method InsertProbe(key: Key, value: Addr, now: Time, prevFree: bool) returns (ret: int, evKey: Key, evValue: Addr)
      requires Valid() && Storable(key)
      modifies buckets
      ensures Inserted(buckets[..], ret, evKey, evValue) ==
        InsertInto(old(buckets[..]), hash, key, value, now, prevFree)
    {
      hide View, Unique, Reachable, InsertInto, DeleteFrom, Landing, Home;
      ghost var bs := buckets[..];
      DeleteIsRemoval(bs, hash, key);
      ret := 0;
      evKey := INVALID;
      evValue := Delete(key);
      if evValue != NONE {
        InsertStops(bs, hash, key, value, now, prevFree);
        return;
      }
      var slot, vacant := ProbeWindow(Home(hash, key, capacity), prevFree, bs);
      InsertByProbe(bs, hash, key, value, now, prevFree, slot, vacant);
      if vacant {
        SetBucket(slot, key, value, now);
        return;
      }
      ret, evKey, evValue := ReplaceVictim(key, value, now, slot);
    }

    /** The inner probe loop: from probe first to a vacant slot, or to the last probe before another lock
        range or the window's end, remembering the oldest entry met. */
    method ProbeRange(loc: nat, first: nat, ghost bs: seq<Bucket>) returns (i: nat, vacant: bool, best: Candidate)
      requires capacity == buckets.Length && capacity >= WINDOW
      requires bs == buckets[..]
      requires loc < capacity && first < WINDOW && SegmentBegin(loc, first, |bs|) == first
      requires Occupied(bs, loc, 0, first)
      ensures first <= i < WINDOW && SegmentBegin(loc, i, |bs|) == first
      ensures Occupied(bs, loc, 0, if vacant then i else i + 1) && (vacant ==> Vacant(At(bs, loc, i)))
      ensures !vacant ==> best == Best(bs, loc, first, i + 1)
      ensures !vacant && i < MAX_PROBING_LEN ==> Slot(loc, i + 1, |bs|) % LOCK_SIZE == 0
    {
      hide Home, Probe;
      i, vacant, best := first, false, Candidate(-1, NEVER);
      var slot := Probe(loc, i, capacity);
      while true
        invariant first <= i < WINDOW && slot == Slot(loc, i, |bs|) && SegmentBegin(loc, i, |bs|) == first
        invariant !vacant && Occupied(bs, loc, 0, i)
        invariant best == Best(bs, loc, first, i)
        decreases WINDOW - i
      {
        assert buckets[slot] == At(bs, loc, i);
        vacant := Vacant(buckets[slot]);
        if vacant {
          break;
        }
        BestStep(bs, loc, first, i);
        if buckets[slot].timestamp <= best.timestamp {
          best := Candidate(slot, buckets[slot].timestamp);
        }
        if i >= MAX_PROBING_LEN {
          break;
        }
        slot := Probe(loc, i + 1, capacity);
        if slot % LOCK_SIZE == 0 {
          break;
        }
        SameRange(loc, i, |bs|);
        i := i + 1;
      }
    }

    /** The outer probe loop, range by range: the slot an insertion uses, vacant or a victim's. In one
        atomic step the victim of the previous range cannot have become vacant since it was scanned. */
    method ProbeWindow(loc: nat, prevFree: bool, ghost bs: seq<Bucket>) returns (slot: nat, vacant: bool)
      requires capacity == buckets.Length && capacity >= WINDOW && loc < capacity && bs == buckets[..]
      ensures slot < capacity && Landed(slot, vacant) == Landing(bs, loc, prevFree)
    {
      hide Home, Probe;
      var prev := NOBODY;
      var i := 0;
      while true
        invariant i < WINDOW && SegmentBegin(loc, i, |bs|) == i
        invariant Occupied(bs, loc, 0, i)
        invariant prev == BestBefore(bs, loc, i)
        decreases WINDOW - i
      {
        var last, found, best := ProbeRange(loc, i, bs);
        if found {
          VacantLanding(bs, loc, last, prevFree);
          return Probe(loc, last, capacity), true;
        }
        if last >= MAX_PROBING_LEN {
          ProbeEnds(bs, loc, i, best, prev, prevFree);
          if prev.slot != -1 && prev.timestamp < best.timestamp && prevFree {
            return prev.slot, false;
          }
          return best.slot, false;
        }
        RangeEnds(bs, loc, i, last);
        prev := best;
        i := last + 1;
      }
    }

    /** The evictor's inner loop over one lock range. It stops early at a busy entry, and at any entry in
        random mode; otherwise it refines the victim carried in. */
    method EvictRange(loc: nat, first: nat, random: bool, start: Candidate, ghost bs: seq<Bucket>)
      returns (i: nat, end: RangeEnd, best: Candidate)
      requires capacity == buckets.Length && capacity >= WINDOW && bs == buckets[..]
      requires loc < capacity && first < WINDOW && SegmentBegin(loc, first, |bs|) == first
      ensures first <= i < WINDOW && SegmentBegin(loc, i, |bs|) == first
      ensures RangeIndex(loc, i, |bs|) == RangeIndex(loc, first, |bs|)
      ensures end.Scanned? && i < MAX_PROBING_LEN ==> Slot(loc, i + 1, |bs|) % LOCK_SIZE == 0
      ensures Passed(bs, loc, random, first, if end.Scanned? then i + 1 else i)
      ensures !end.Scanned? ==> Stops(At(bs, loc, i), random) && At(bs, loc, i).busy == end.MetBusy?
      ensures best == if random then start else Combine(start, Best(bs, loc, first, if end.Scanned? then i + 1 else i))
      ensures Current(bs, start) ==> Current(bs, best)
    {
      hide Home, Probe, Best;
      i, end, best := first, Scanned, start;
      var slot := Probe(loc, i, capacity);
      BestOfNone(bs, loc, first);
      while true
        invariant first <= i < WINDOW && slot == Slot(loc, i, |bs|) && SegmentBegin(loc, i, |bs|) == first
        invariant end == Scanned && RangeIndex(loc, i, |bs|) == RangeIndex(loc, first, |bs|)
        invariant Passed(bs, loc, random, first, i)
        invariant best == if random then start else Combine(start, Best(bs, loc, first, i))
        invariant Current(bs, start) ==> Current(bs, best)
        decreases WINDOW - i
      {
        assert buckets[slot] == At(bs, loc, i);
        CombineStep(bs, loc, first, i, start);
        if !Vacant(buckets[slot]) {
          if buckets[slot].busy {
            end := MetBusy;
            break;
          }
          if random {
            end := Immediate;
            break;
          } else if buckets[slot].timestamp <= best.timestamp {
            best := Candidate(slot, buckets[slot].timestamp);
          }
        }
        if i >= MAX_PROBING_LEN {
          break;
        }
        slot := Probe(loc, i + 1, capacity);
        if slot % LOCK_SIZE == 0 {
          break;
        }
        SameRange(loc, i, |bs|);
        i := i + 1;
      }
    }

    /** One try: the slot to evict, or -1 to retry, and the victim variables left behind for the next
        try, which does not reset them. A busy entry is never evicted. */
    method EvictTry(loc: nat, a: Attempt, random: bool, start: Candidate, ghost bs: seq<Bucket>)
      returns (slot: int, best: Candidate)
      requires capacity == buckets.Length && capacity >= WINDOW && bs == buckets[..] && loc < capacity
      requires Current(bs, start)
      ensures TryEnd(slot, best) == TryEndOf(bs, loc, a, random, start)
      ensures slot == -1 || (0 <= slot < |bs| && !Vacant(bs[slot]) && !bs[slot].busy)
      ensures Current(bs, best)
    {
      assert SegmentBegin(loc, 0, |bs|) == 0 && RangeIndex(loc, 0, |bs|) == 0;
      assert Passed(bs, loc, random, 0, 0) && Behind(bs, loc, random, start, 0) == NOBODY;
      hide TryEndOf, Best, Combine, Carried, Behind, SegmentBegin, RangeIndex, Passed, Probe;
      best := start;
      var prev := NOBODY;
      var i, range := 0, 0;
      while true
        invariant i < WINDOW && SegmentBegin(loc, i, |bs|) == i && range == RangeIndex(loc, i, |bs|)
        invariant (range == 0 <==> i == 0)
        invariant Current(bs, best) && Current(bs, prev) && Passed(bs, loc, random, 0, i)
        invariant a.blocked.Some? ==> a.blocked.value >= range
        invariant best == Initial(i, start) && prev == Behind(bs, loc, random, start, i)
        decreases WINDOW - i
      {
        if a.blocked == Some(range) {
          EndsAtLock(bs, loc, a, random, start, i);
          return -1, best;
        }
        var last, end;
        last, end, best := EvictRange(loc, i, random, best, bs);
        PassedOn(bs, loc, random, i, if end.Scanned? then last + 1 else last);
        ScanCarries(bs, loc, random, start, i, if end.Scanned? then last + 1 else last);
        if !end.Scanned? {
          EndsAtStop(bs, loc, a, random, start, last);
          return if end.MetBusy? then -1 else Probe(loc, last, capacity), best;
        }
        if last >= MAX_PROBING_LEN {
          EndsAtWindow(bs, loc, a, random, start, i);
          slot := if best.slot != -1 && prev.slot != -1 && prev.timestamp < best.timestamp && a.prevFree then prev.slot
                  else best.slot;
          return;
        }
        NextRange(bs, loc, random, start, i, last);
        prev, best := best, NOBODY;
        i, range := last + 1, range + 1;
      }
    }

    /** The tries find no victim. */
    ghost predicate Exhausted(attempts: seq<Attempt>)
      requires capacity == buckets.Length && capacity >= WINDOW
      reads buckets
    {
      SearchFrom(buckets[..], attempts, 0, NOBODY).slot == -1
    }

    /** Background eviction. The source retries until a try finds a victim; here the tries come from a finite
        supply, and ok says whether one of them does. The slot becomes a tombstone. The search ends at the first try
        that must find a victim, or before: one of the first three that is undisturbed with an entry in its window's
        last lock range, or a later one with a first entry that is not busy. One of the first three evicts an entry
        that none it may choose from is older than, a later one the first entry of its window. */
    method ApproxLRUEvict(attempts: seq<Attempt>)
      returns (ok: bool, key: Key, value: Addr, tries: nat, ghost slot: nat)
      requires Valid()
      modifies buckets
      ensures Valid() && tries <= |attempts| && tries == SearchFrom(old(buckets[..]), attempts, 0, NOBODY).tries
      ensures ok <==> !old(Exhausted(attempts))
      ensures ok ==>
        tries > 0 && key in old(Map()) && value == old(Map())[key] && value != NONE && Map() == old(Map()) - {key}
      ensures ok ==> slot == SearchFrom(old(buckets[..]), attempts, 0, NOBODY).slot
      ensures ok ==> slot < capacity && old(buckets[..])[slot].key == key
      ensures ok ==> buckets[..] == old(buckets[..])[slot := old(buckets[..])[slot].(key := TOMBSTONE)]
      ensures forall n :: 0 <= n < |attempts| && Offers(old(buckets[..]), attempts[n], n) ==> ok && tries <= n + 1
      ensures ok ==> MayEvict(old(buckets[..]), attempts[tries - 1], tries - 1, slot)
      ensures ok ==> FromTries(old(buckets[..]), attempts, tries, slot)
      ensures ok && AllUndisturbed(old(buckets[..]), attempts, tries) ==>
        Offers(old(buckets[..]), attempts[tries - 1], tries - 1) && InWindow(attempts[tries - 1], slot, capacity)
      ensures ok && tries <= 3 ==>
        var a := attempts[tries - 1]; var loc := a.random % capacity;
        a.prevFree && TwoRanges(loc, capacity) ==> LeastRecent(old(buckets[..]), loc, slot)
      ensures !ok ==> tries == |attempts| && buckets[..] == old(buckets[..]) && Map() == old(Map())
      ensures !ok ==> NoneOffers(buckets[..], attempts)
      ensures old(Calm()) ==> Calm()
    {
      hide SearchFrom, Offers, MayEvict, FromTries, InWindow, AllUndisturbed, LeastRecent, TwoRanges, NoneOffers;
      ghost var bs := buckets[..];
      SearchFindsOldest(bs, attempts);
      var s;
      slot := 0;
      s, tries := EvictSearch(attempts, bs);
      if s == -1 {
        return false, INVALID, NONE, tries, slot;
      }
      slot := s;
      ViewAt(bs, s);
      KillRemoves(bs, hash, s);
      key, value := buckets[s].key, buckets[s].value;
      buckets[s] := buckets[s].(key := TOMBSTONE);
      assert buckets[..] == Kill(bs, s);
      ok := true;
    }

    /** The RETRY loop: the slot to evict, or -1 when the supply of tries runs out. */
    method EvictSearch(attempts: seq<Attempt>, ghost bs: seq<Bucket>) returns (slot: int, tries: nat)
      requires capacity == buckets.Length && capacity >= WINDOW && bs == buckets[..]
      ensures SearchEnd(slot, tries) == SearchFrom(bs, attempts, 0, NOBODY)
      ensures tries <= |attempts| && (slot == -1 ==> tries == |attempts|)
      ensures slot != -1 ==> tries > 0 && 0 <= slot < |bs| && !Vacant(bs[slot]) && !bs[slot].busy
      ensures SearchLawful(bs, attempts, slot, tries) && (slot == -1 ==> NoneOffers(bs, attempts))
    {
      hide TryEndOf, SearchLawful, Offers, MayEvict, InWindow, Undisturbed, NoneOffers;
      ghost var end := SearchFrom(bs, attempts, 0, NOBODY);
      SearchLaw(bs, attempts, 0, NOBODY);
      FailedSearch(bs, attempts, end.slot, end.tries);
      var best := NOBODY;
      tries := 0;
      while tries < |attempts|
        invariant tries <= |attempts| && Current(bs, best)
        invariant end == SearchFrom(bs, attempts, tries, best)
      {
        var a := attempts[tries];
        slot, best := EvictTry(a.random % capacity, a, tries > MAX_EVICT_RETRY, best, bs);
        tries := tries + 1;
        if slot != -1 {
          return;
        }
      }
      slot := -1;
    }
  }
}
