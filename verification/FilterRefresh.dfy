/** The refresh of the client's filter from the server's: block, snapshot, overwrite, merge. Puts are in
    flight meanwhile. Each step is atomic; clearing the merging switch and merging are two steps. */
module FilterRefresh {
  import opened Types
  import opened CountingFilter
  import opened BloomFilter

  datatype Worker = Sleeping | Waiting

  datatype Callback = Quiet | DoneSet | Cleared

  /** The request to the server and its reply, the packed filter. */
  datatype Wire = Nothing | Requested | Replied(bits: set<nat>) | Written

  /** What has happened that the state does not show: the bits last written over the bitmap; the keys added with
      the switch on since blocking, with it off since that overwrite, and those merged since; all keys added since
      blocking, and those of them not added with the switch off before the overwrite; and the puts in flight when
      the filter was blocked, those of them still in flight at the snapshot, and the same of the refresh whose
      snapshot is in the bitmap. */
  datatype Log = Log(written: set<nat>, buffered: set<Key>, direct: set<Key>, merged: set<Key>, since: set<Key>,
                     kept: set<Key>, early: set<nat>, late: set<nat>, missed: set<nat>)

  /** Puts are numbered. A put is pending until the client has added its key to the filter, and in flight until
      it reaches the server. */
  datatype State = State(filter: Filter, worker: Worker, done: bool, callback: Callback, wire: Wire,
                         puts: map<nat, Key>, pending: set<nat>, inflight: set<nat>, held: set<Key>, log: Log)

  datatype Step =
    | SendPut(id: nat, key: Key)
    | AddKey(id: nat)
    | Arrive(id: nat)
    | Lose(id: nat)
    | Leave(key: Key)
    | Block
    | Snapshot(bits: set<nat>)
    | Overwrite
    | Complete
    | ClearMerging
    | Merge
    | SeeDone

  ghost predicate Init(s: State) {
    s == START
  }

  ghost predicate Enabled(sh: Shape, s: State, step: Step)
    requires sh.Ok()
  {
    match step
    case SendPut(id, key) => id !in s.puts
    case AddKey(id) => id in s.pending && id in s.puts
    case Arrive(id) => id in s.inflight && id in s.puts
    case Lose(id) => id in s.inflight
    case Leave(key) => true
    case Block => s.worker.Sleeping? && s.wire.Nothing?
    case Snapshot(bits) => s.wire.Requested? && forall k :: k in s.held ==> KeyBits(sh, k) <= bits
    case Overwrite => s.wire.Replied?
    case Complete => s.wire.Written? && s.callback.Quiet?
    case ClearMerging => s.callback.DoneSet?
    case Merge => s.callback.Cleared?
    case SeeDone => s.worker.Waiting? && s.done
  }

  /** The server's snapshot holds every key it holds (its filter has no false negatives); a put may also be
      lost or refused, and a page leave by a get, an invalidation or an eviction. */
  ghost function Next(sh: Shape, s: State, step: Step): State
    requires sh.Ok() && Enabled(sh, s, step)
  {
    match step
    case SendPut(id, key) => s.(puts := s.puts[id := key], pending := s.pending + {id}, inflight := s.inflight + {id})
    case AddKey(id) =>
      s.(filter := s.filter.Add(KeyBits(sh, s.puts[id])), pending := s.pending - {id}, log := Added(s, s.puts[id]))
    case Arrive(id) => s.(inflight := s.inflight - {id}, held := s.held + {s.puts[id]})
    case Lose(id) => s.(inflight := s.inflight - {id})
    case Leave(key) => s.(held := s.held - {key})
    case Block => s.(filter := s.filter.Block(), worker := Waiting, wire := Requested,
                     log := s.log.(early := s.inflight, buffered := {}, since := {}, kept := {}))
    case Snapshot(bits) => s.(wire := Replied(bits), log := s.log.(late := s.log.early * s.inflight))
    case Overwrite => s.(filter := s.filter.(bitmap := s.wire.bits), wire := Written,
                         log := s.log.(written := s.wire.bits, direct := {}, merged := {}, missed := s.log.late))
    case Complete => s.(done := true, callback := DoneSet, wire := Nothing)
    case ClearMerging => s.(filter := s.filter.Clear(), callback := Cleared)
    case Merge => s.(filter := s.filter.Merge(), callback := Quiet,
        log := s.log.(merged := s.log.merged + s.log.buffered))
    case SeeDone => s.(worker := Sleeping, done := false)
  }

  /** The snapshot of the refresh is still to be written. */
  ghost predicate Outdated(s: State) {
    s.wire.Requested? || s.wire.Replied?
  }

  ghost function Added(s: State, k: Key): Log {
    var l := s.log.(since := s.log.since + {k});
    if s.filter.merging then l.(buffered := l.buffered + {k}, kept := l.kept + {k})
    else if Outdated(s) then l.(direct := l.direct + {k})
    else l.(direct := l.direct + {k}, kept := l.kept + {k})
  }

  ghost predicate Run(sh: Shape, run: seq<State>, steps: seq<Step>)
    requires sh.Ok()
  {
    && |run| == |steps| + 1
    && Init(run[0])
    && forall i :: 0 <= i < |steps| ==> Enabled(sh, run[i], steps[i]) && run[i + 1] == Next(sh, run[i], steps[i])
  }

  /** The worker does not block again while the last refresh is still being merged. */
  ghost predicate Patient(s: State, step: Step) {
    step.Block? ==> s.callback.Quiet?
  }

  /** Every put issued before blocking has reached the server, or was lost, by the time it takes its snapshot. */
  ghost predicate Prompt(s: State, step: Step) {
    step.Snapshot? ==> s.log.early * s.inflight == {}
  }

  // ---- What the filter reports ----

  ghost function BitsOf(sh: Shape, keys: set<Key>): set<nat>
    requires sh.Ok()
  {
    set k, i | k in keys && 0 <= i < sh.numHash :: sh.Index(k, i)
  }

  lemma BitsOfMore(sh: Shape, keys: set<Key>, k: Key)
    requires sh.Ok()
    ensures BitsOf(sh, keys + {k}) == BitsOf(sh, keys) + KeyBits(sh, k)
    ensures k in keys ==> KeyBits(sh, k) <= BitsOf(sh, keys)
  {
    assert KeyBits(sh, k) <= BitsOf(sh, keys + {k});
    assert BitsOf(sh, keys) <= BitsOf(sh, keys + {k});
    assert k in keys ==> keys + {k} == keys;
  }

  lemma BitsOfUnion(sh: Shape, a: set<Key>, b: set<Key>)
    requires sh.Ok()
    ensures BitsOf(sh, a + b) == BitsOf(sh, a) + BitsOf(sh, b)
  {
    assert BitsOf(sh, a) <= BitsOf(sh, a + b) && BitsOf(sh, b) <= BitsOf(sh, a + b);
  }

  /** Both bitmaps hold exactly what the log says. */
  ghost predicate Exact(sh: Shape, s: State)
    requires sh.Ok()
  {
    && s.filter.tmp == BitsOf(sh, s.log.buffered)
    && s.filter.bitmap == s.log.written + BitsOf(sh, s.log.direct + s.log.merged)
  }

  /** How the log's sets of keys are related as a refresh goes on. */
  ghost predicate Stages(s: State) {
    && (s.filter.merging ==> !s.wire.Nothing? || s.callback.DoneSet?)
    && (Outdated(s) ==> s.log.kept == s.log.buffered)
    && (!Outdated(s) ==> s.log.kept == s.log.buffered + s.log.direct && s.log.merged <= s.log.buffered)
    && (AtRest(s) ==> s.log.merged == s.log.buffered)
  }

  /** No refresh is under way. */
  ghost predicate AtRest(s: State) {
    s.wire.Nothing? && s.callback.Quiet?
  }

  /** A waiting worker's refresh is under way, or done. */
  lemma {:induction false} WaitingForDone(sh: Shape, run: seq<State>, steps: seq<Step>, n: nat)
    requires sh.Ok() && Run(sh, run, steps) && n < |run|
    ensures run[n].worker.Waiting? && run[n].wire.Nothing? ==> run[n].done
  {
    if n > 0 { WaitingForDone(sh, run, steps, n - 1); }
  }

  /** A refresh is never stuck: until the filter is at rest and the worker asleep, the server, the card, the callback
      or the worker has a step to take. */
  lemma NeverStuck(sh: Shape, run: seq<State>, steps: seq<Step>, n: nat) returns (step: Step)
    requires sh.Ok() && Run(sh, run, steps) && n < |run| && (run[n].worker.Waiting? || !AtRest(run[n]))
    ensures Enabled(sh, run[n], step)
    ensures step.Snapshot? || step.Overwrite? || step.Complete? || step.ClearMerging? || step.Merge? || step.SeeDone?
  {
    WaitingForDone(sh, run, steps, n);
    var s := run[n];
    if s.callback.DoneSet? {
      step := ClearMerging;
    } else if s.callback.Cleared? {
      step := Merge;
    } else {
      match s.wire
      case Requested => step := Snapshot(BitsOf(sh, s.held));
      case Replied(_) => step := Overwrite;
      case Written => step := Complete;
      case Nothing => step := SeeDone;
    }
  }

  lemma StepExact(sh: Shape, s: State, step: Step)
    requires sh.Ok() && Exact(sh, s) && Enabled(sh, s, step)
    ensures Exact(sh, Next(sh, s, step))
  {
    hide KeyBits, BitsOf;
    var l := s.log;
    match step
    case AddKey(id) =>
      var k := s.puts[id];
      BitsOfMore(sh, l.buffered, k);
      BitsOfMore(sh, l.direct + l.merged, k);
      assert l.direct + {k} + l.merged == l.direct + l.merged + {k};
    case Block => BitsOfNone(sh);
    case Overwrite =>
      BitsOfNone(sh);
      assert Next(sh, s, step).log.direct + Next(sh, s, step).log.merged == {};
    case Merge =>
      BitsOfUnion(sh, l.direct + l.merged, l.buffered);
      assert l.direct + (l.merged + l.buffered) == l.direct + l.merged + l.buffered;
    case _ =>
  }

  lemma BitsOfNone(sh: Shape)
    requires sh.Ok()
    ensures BitsOf(sh, {}) == {}
  {
  }

  lemma StepStages(sh: Shape, s: State, step: Step)
    requires sh.Ok() && Stages(s) && Enabled(sh, s, step)
    ensures Stages(Next(sh, s, step))
  {
    hide KeyBits;
  }

  lemma {:induction false} RunExact(sh: Shape, run: seq<State>, steps: seq<Step>, n: nat)
    requires sh.Ok() && Run(sh, run, steps) && n < |run|
    ensures Exact(sh, run[n]) && Stages(run[n])
  {
    if n == 0 {
      BitsOfNone(sh);
    } else {
      RunExact(sh, run, steps, n - 1);
      StepExact(sh, run[n - 1], steps[n - 1]);
      StepStages(sh, run[n - 1], steps[n - 1]);
    }
  }

  /** In every run, whatever the worker does, a key is reported at rest if and only if its bits are among those last
      written and those of the keys added since blocking, less those added with the switch off before the
      overwrite. */
  lemma ReportedAtRest(sh: Shape, run: seq<State>, steps: seq<Step>, n: nat, k: Key)
    requires sh.Ok() && Run(sh, run, steps) && n < |run| && AtRest(run[n])
    ensures run[n].filter.Reports(KeyBits(sh, k)) <==>
      KeyBits(sh, k) <= run[n].log.written + BitsOf(sh, run[n].log.kept)
  {
    RunExact(sh, run, steps, n);
    assert run[n].log.direct + run[n].log.merged == run[n].log.kept;
  }

  /** And at any time: if and only if its bits are among those of the keys buffered, while the switch is on, or
      among those last written and of the keys added to the bitmap or merged since. */
  lemma ReportedAnyTime(sh: Shape, run: seq<State>, steps: seq<Step>, n: nat, k: Key)
    requires sh.Ok() && Run(sh, run, steps) && n < |run|
    ensures var s := run[n];
      s.filter.Reports(KeyBits(sh, k)) <==>
        || (s.filter.merging && KeyBits(sh, k) <= BitsOf(sh, s.log.buffered))
        || KeyBits(sh, k) <= s.log.written + BitsOf(sh, s.log.direct + s.log.merged)
  {
    RunExact(sh, run, steps, n);
  }

  // ---- Refreshes that do not overlap ----

  /** The worker, the callback, the wire and the switch agree. */
  ghost predicate Phases(s: State) {
    && (s.filter.merging <==> !s.wire.Nothing? || s.callback.DoneSet?)
    && (!s.wire.Nothing? ==> s.worker.Waiting? && s.callback.Quiet? && !s.done)
    && (s.done ==> s.worker.Waiting?)
    && (s.worker.Waiting? ==> s.done || !s.wire.Nothing?)
    && s.log.kept == s.log.since
    && (s.wire.Written? || s.callback.DoneSet? ==> s.log.direct == {})
    && (s.wire.Written? || !s.callback.Quiet? ==> s.log.merged == {})
  }

  lemma StepPhases(sh: Shape, s: State, step: Step)
    requires sh.Ok() && Phases(s) && Enabled(sh, s, step) && Patient(s, step)
    ensures Phases(Next(sh, s, step))
  {
    hide KeyBits;
  }

  lemma {:induction false} RunPhases(sh: Shape, run: seq<State>, steps: seq<Step>, n: nat)
    requires sh.Ok() && Run(sh, run, steps) && n < |run|
    requires forall i :: 0 <= i < n ==> Patient(run[i], steps[i])
    ensures Phases(run[n])
  {
    if n > 0 {
      RunPhases(sh, run, steps, n - 1);
      StepPhases(sh, run[n - 1], steps[n - 1]);
    }
  }

  /** If no refresh begins before the last is merged, the keys reported at rest are those whose bits are among the
      ones last written and those of the keys added since blocking. */
  lemma PatientAtRest(sh: Shape, run: seq<State>, steps: seq<Step>, n: nat, k: Key)
    requires sh.Ok() && Run(sh, run, steps) && n < |run| && AtRest(run[n])
    requires forall i :: 0 <= i < n ==> Patient(run[i], steps[i])
    ensures run[n].filter.Reports(KeyBits(sh, k)) <==>
      KeyBits(sh, k) <= run[n].log.written + BitsOf(sh, run[n].log.since)
  {
    ReportedAtRest(sh, run, steps, n, k);
    RunPhases(sh, run, steps, n);
  }

  /** Between clearing the switch and merging, the keys added during the refresh are missing: reported are those
      whose bits are among the ones written and those of the keys added since the switch was cleared. The merge
      then adds the others. */
  lemma GapReports(sh: Shape, run: seq<State>, steps: seq<Step>, n: nat, k: Key)
    requires sh.Ok() && Run(sh, run, steps) && n < |run| && run[n].callback.Cleared?
    requires forall i :: 0 <= i < n ==> Patient(run[i], steps[i])
    ensures var s := run[n];
      && (s.filter.Reports(KeyBits(sh, k)) <==> KeyBits(sh, k) <= s.log.written + BitsOf(sh, s.log.direct))
      && (Next(sh, s, Merge).filter.Reports(KeyBits(sh, k)) <==>
            KeyBits(sh, k) <= s.log.written + BitsOf(sh, s.log.since))
      && s.log.since == s.log.buffered + s.log.direct
  {
    var s := run[n];
    RunExact(sh, run, steps, n);
    RunPhases(sh, run, steps, n);
    StepExact(sh, s, Merge);
    StepStages(sh, s, Merge);
    StepPhases(sh, s, Merge);
    assert s.log.direct + s.log.merged == s.log.direct;
    assert s.log.direct + (s.log.merged + s.log.buffered) == s.log.since;
  }

  /** The worker has blocked again between the announcement and the merge of a refresh: the snapshot of that one is
      in the bitmap, and the keys added are those since the second blocking. */
  ghost predicate Hasty(s: State, written: set<nat>) {
    && s.log.written == written && Outdated(s)
    && match s.callback
       case DoneSet => s.filter.merging && s.log.direct == s.log.merged == {} && s.log.since == s.log.buffered
       case Cleared => !s.filter.merging && s.log.merged == {} && s.log.since == s.log.buffered + s.log.direct
       case Quiet => !s.filter.merging && s.log.since == s.log.merged + s.log.direct
  }

  lemma HastyStep(sh: Shape, s: State, step: Step, written: set<nat>)
    requires sh.Ok() && Hasty(s, written) && Enabled(sh, s, step) && !step.Block? && !step.Overwrite?
    ensures Hasty(Next(sh, s, step), written)
  {
    hide KeyBits;
  }

  lemma {:induction false} HastyStays(sh: Shape, run: seq<State>, steps: seq<Step>, m: nat, n: nat)
    requires sh.Ok() && Run(sh, run, steps) && m < n < |run| && steps[m].Block? && run[m].callback.DoneSet?
    requires forall i :: 0 <= i < m ==> Patient(run[i], steps[i])
    requires forall i :: m < i < n ==> !steps[i].Block? && !steps[i].Overwrite?
    ensures Hasty(run[n], run[m].log.written)
  {
    hide KeyBits;
    if n == m + 1 {
      RunPhases(sh, run, steps, m);
    } else {
      HastyStays(sh, run, steps, m, n - 1);
      HastyStep(sh, run[n - 1], steps[n - 1], run[m].log.written);
    }
  }

  /** Blocking again before the switch is cleared forgets every key added during the refresh just done: after the
      merge, and until the next overwrite, a key is reported if and only if its bits are among those that refresh
      wrote and those of the keys added since the second blocking. */
  lemma HastyBlockIff(sh: Shape, run: seq<State>, steps: seq<Step>, m: nat, n: nat, k: Key)
    requires sh.Ok() && Run(sh, run, steps) && m < n < |run| && steps[m].Block? && run[m].callback.DoneSet?
    requires forall i :: 0 <= i < m ==> Patient(run[i], steps[i])
    requires forall i :: m < i < n ==> !steps[i].Block? && !steps[i].Overwrite?
    requires run[n].callback.Quiet?
    ensures run[n].filter.Reports(KeyBits(sh, k)) <==>
      KeyBits(sh, k) <= run[m].log.written + BitsOf(sh, run[n].log.since)
  {
    HastyStays(sh, run, steps, m, n);
    RunExact(sh, run, steps, n);
    assert run[n].log.direct + run[n].log.merged == run[n].log.since;
  }

  // ---- No false negatives ----

  ghost predicate Pending(s: State, k: Key) {
    exists id :: id in s.pending && id in s.puts && s.puts[id] == k
  }

  /** The keys the server holds or is about to. */
  ghost predicate Live(s: State, k: Key) {
    k in s.held || exists id :: id in s.inflight && id in s.puts && s.puts[id] == k
  }

  /** One of the puts is of the key. */
  ghost predicate Among(s: State, ids: set<nat>, k: Key) {
    exists id :: id in ids && id in s.puts && s.puts[id] == k
  }

  /** The temporary bitmap will be merged or is looked up now. */
  ghost predicate Buffered(s: State) {
    s.filter.merging || s.callback.Cleared?
  }

  /** Known puts only. */
  ghost predicate Numbered(s: State) {
    && s.pending <= s.puts.Keys && s.inflight <= s.puts.Keys
    && s.log.early <= s.puts.Keys && s.log.late <= s.puts.Keys && s.log.missed <= s.puts.Keys
  }

  /** A live key is pending, in the temporary bitmap, or both in the bitmap, unless its put missed the snapshot in
      it, and in the snapshot to come, unless its put was late for that one. */
  ghost predicate Accounted(sh: Shape, s: State, k: Key)
    requires sh.Ok()
  {
    || Pending(s, k)
    || (Buffered(s) && KeyBits(sh, k) <= s.filter.tmp)
    || ((KeyBits(sh, k) <= s.filter.bitmap || Among(s, s.log.missed, k))
        && (s.wire.Replied? ==> KeyBits(sh, k) <= s.wire.bits || Among(s, s.log.late, k)))
  }

  /** Between blocking and the snapshot, puts issued since are pending or in the temporary bitmap. */
  ghost predicate LateKept(sh: Shape, s: State)
    requires sh.Ok()
  {
    s.wire.Requested? ==>
      forall id :: id in s.inflight && id !in s.log.early && id in s.puts && id !in s.pending ==>
          KeyBits(sh, s.puts[id]) <= s.filter.tmp
  }

  ghost predicate Inv(sh: Shape, s: State)
    requires sh.Ok()
  {
    Phases(s) && Numbered(s) && LateKept(sh, s) && forall k :: Live(s, k) ==> Accounted(sh, s, k)
  }

  lemma StepLate(sh: Shape, s: State, step: Step)
    requires sh.Ok() && Inv(sh, s) && Enabled(sh, s, step) && Patient(s, step)
    ensures Numbered(Next(sh, s, step)) && LateKept(sh, Next(sh, s, step))
  {
    hide KeyBits;
  }

  /** A live key stays accounted for, one step at a time. */
  lemma StepAccounts(sh: Shape, s: State, step: Step, k: Key)
    requires sh.Ok() && Inv(sh, s) && Enabled(sh, s, step) && Patient(s, step)
    requires Live(Next(sh, s, step), k)
    ensures Accounted(sh, Next(sh, s, step), k)
  {
    hide KeyBits;
    var s' := Next(sh, s, step);
    match step
    case SendPut(id, key) =>
      if k == key { assert id in s'.pending && s'.puts[id] == k; } else { StillLive(s, s', k); StillPending(s, s', k); }
    case AddKey(id) =>
      StillLive(s, s', k);
      if k != s.puts[id] { StillPending(s, s', k); }
    case Arrive(id) =>
      if k == s.puts[id] { assert Live(s, k); } else { StillLive(s, s', k); }
      StillPending(s, s', k);
    case Snapshot(bits) =>
      StillLive(s, s', k);
      StillPending(s, s', k);
      if k !in s.held {
        var id :| id in s.inflight && id in s.puts && s.puts[id] == k;
        if id in s.pending { assert Pending(s', k); }
        if id in s.log.early { assert Among(s', s'.log.late, k); }
      }
    case _ =>
      StillLive(s, s', k);
      StillPending(s, s', k);
  }

  lemma StillLive(s: State, s': State, k: Key)
    requires Live(s', k) && (k in s'.held ==> Live(s, k)) && s'.inflight <= s.inflight + s'.inflight
    requires forall id :: id in s'.inflight && id in s'.puts && s'.puts[id] == k ==>
      id in s.inflight && id in s.puts && s.puts[id] == k
    ensures Live(s, k)
  {
  }

  lemma StillPending(s: State, s': State, k: Key)
    requires forall id :: id in s.pending && id in s.puts && s.puts[id] == k ==>
      id in s'.pending && id in s'.puts && s'.puts[id] == k
    ensures Pending(s, k) ==> Pending(s', k)
  {
  }

  lemma StepKeepsInv(sh: Shape, s: State, step: Step)
    requires sh.Ok() && Inv(sh, s) && Enabled(sh, s, step) && Patient(s, step)
    ensures Inv(sh, Next(sh, s, step))
  {
    StepPhases(sh, s, step);
    StepLate(sh, s, step);
    forall k | Live(Next(sh, s, step), k) ensures Accounted(sh, Next(sh, s, step), k) { StepAccounts(sh, s, step, k); }
  }

  lemma {:induction false} RunKeeps(sh: Shape, run: seq<State>, steps: seq<Step>, n: nat)
    requires sh.Ok() && Run(sh, run, steps) && n < |run|
    requires forall i :: 0 <= i < n ==> Patient(run[i], steps[i])
    ensures Inv(sh, run[n])
    ensures (forall i :: 0 <= i < n ==> Prompt(run[i], steps[i])) ==> run[n].log.late == run[n].log.missed == {}
  {
    hide KeyBits;
    if n > 0 {
      RunKeeps(sh, run, steps, n - 1);
      StepKeepsInv(sh, run[n - 1], steps[n - 1]);
    }
  }

  /** In every run in which each refresh is merged before the next begins, a key the server holds, or is about to,
      is reported present as soon as the client has added it, except between clearing the switch and merging,
      unless its put was in flight from before blocking to after the snapshot that is in the bitmap. */
  lemma FalseNegativesAreLate(sh: Shape, run: seq<State>, steps: seq<Step>, n: nat, k: Key)
    requires sh.Ok() && Run(sh, run, steps) && n < |run|
    requires forall i :: 0 <= i < n ==> Patient(run[i], steps[i])
    requires Live(run[n], k) && !Pending(run[n], k) && !run[n].callback.Cleared?
    ensures run[n].filter.Reports(KeyBits(sh, k)) || Among(run[n], run[n].log.missed, k)
  {
    RunKeeps(sh, run, steps, n);
    assert Accounted(sh, run[n], k);
  }

  /** At rest, a live key is reported absent if and only if its put missed the snapshot and its bits are neither
      among those written nor among those of the keys added since. */
  lemma LatePutLostIff(sh: Shape, run: seq<State>, steps: seq<Step>, n: nat, k: Key)
    requires sh.Ok() && Run(sh, run, steps) && n < |run| && AtRest(run[n])
    requires forall i :: 0 <= i < n ==> Patient(run[i], steps[i])
    requires Live(run[n], k) && !Pending(run[n], k)
    ensures var l := run[n].log;
      !run[n].filter.Reports(KeyBits(sh, k)) <==>
        Among(run[n], l.missed, k) && !(KeyBits(sh, k) <= l.written + BitsOf(sh, l.since))
  {
    FalseNegativesAreLate(sh, run, steps, n, k);
    PatientAtRest(sh, run, steps, n, k);
  }

  /** If moreover the puts issued before blocking reach the server before its snapshot, no live key is reported
      absent once added, but for the gap. */
  lemma NoFalseNegatives(sh: Shape, run: seq<State>, steps: seq<Step>, n: nat, k: Key)
    requires sh.Ok() && Run(sh, run, steps) && n < |run|
    requires forall i :: 0 <= i < n ==> Patient(run[i], steps[i]) && Prompt(run[i], steps[i])
    requires Live(run[n], k) && !Pending(run[n], k) && !run[n].callback.Cleared?
    ensures run[n].filter.Reports(KeyBits(sh, k))
  {
    RunKeeps(sh, run, steps, n);
    FalseNegativesAreLate(sh, run, steps, n, k);
  }

  /** Every key added since blocking is reported present while the merge is under way and after it,
      whatever the puts do, but for that same gap. */
  lemma AddedReported(sh: Shape, run: seq<State>, steps: seq<Step>, n: nat, k: Key)
    requires sh.Ok() && Run(sh, run, steps) && n < |run|
    requires forall i :: 0 <= i < n ==> Patient(run[i], steps[i])
    requires k in run[n].log.since && !run[n].callback.Cleared?
    ensures run[n].filter.Reports(KeyBits(sh, k))
  {
    hide KeyBits, BitsOf;
    RunExact(sh, run, steps, n);
    RunPhases(sh, run, steps, n);
    BitsOfMore(sh, run[n].log.buffered, k);
    BitsOfMore(sh, run[n].log.direct + run[n].log.merged, k);
  }

  /** Every key of the server's snapshot is reported present once it is written, and stays so until the next
      refresh overwrites the bitmap. */
  lemma {:induction false} SnapshotReported(sh: Shape, run: seq<State>, steps: seq<Step>, m: nat, n: nat, k: Key)
    requires sh.Ok() && Run(sh, run, steps) && m < n < |run| && steps[m].Overwrite?
    requires KeyBits(sh, k) <= run[m].wire.bits
    requires forall i :: m < i < n ==> !steps[i].Overwrite?
    ensures KeyBits(sh, k) <= run[n].filter.bitmap && run[n].filter.Reports(KeyBits(sh, k))
  {
    hide KeyBits;
    if n > m + 1 { SnapshotReported(sh, run, steps, m, n - 1, k); }
  }

  // ---- Each condition is needed ----

  /** A filter with one position per key. */
  function Direct(): Shape {
    Shape(1, 8, (k: Key, salt: nat) => k)
  }

  lemma DirectBits(k: Key)
    requires k < 8
    ensures KeyBits(Direct(), k) == {k}
  {
    assert Direct().Index(k, 0) == k;
  }

  const BLANK: Log := Log({}, {}, {}, {}, {}, {}, {}, {}, {})

  const START: State := State(Filter({}, {}, false), Sleeping, false, Quiet, Nothing, map[], {}, {}, {}, BLANK)

  lemma Begin(sh: Shape) returns (run: seq<State>, steps: seq<Step>)
    requires sh.Ok()
    ensures run == [START] && steps == [] && Run(sh, run, steps)
  {
    run, steps := [START], [];
  }

  lemma Extend(sh: Shape, run: seq<State>, steps: seq<Step>, step: Step) returns (run': seq<State>, steps': seq<Step>)
    requires sh.Ok() && Run(sh, run, steps) && |run| == |steps| + 1 && Enabled(sh, run[|steps|], step)
    ensures steps' == steps + [step] && run' == run + [Next(sh, run[|steps|], step)] && Run(sh, run', steps')
  {
    run', steps' := run + [Next(sh, run[|steps|], step)], steps + [step];
  }

  /** A page is put and added, and the server takes its snapshot before the put arrives. */
  lemma LatePut() returns (run: seq<State>, steps: seq<Step>)
    ensures |steps| == 4 && |run| == 5 && Run(Direct(), run, steps) && forall i :: 0 <= i < 4 ==>
      Patient(run[i], steps[i])
    ensures run[4] == State(Filter({1}, {}, true), Waiting, false, Quiet, Replied({}), map[0 := 1], {}, {0}, {},
      BLANK.(direct := {1}, early := {0}, late := {0}))
  {
    hide Run;
    DirectBits(1);
    run, steps := Begin(Direct());
    run, steps := Extend(Direct(), run, steps, SendPut(0, 1));
    run, steps := Extend(Direct(), run, steps, AddKey(0));
    run, steps := Extend(Direct(), run, steps, Block);
    run, steps := Extend(Direct(), run, steps, Snapshot({}));
  }

  /** A page added before blocking whose put reaches the server after its snapshot is forgotten: the server
      holds it and the client, with nothing pending, reports it absent. */
  lemma LatePutForgotten() returns (run: seq<State>, steps: seq<Step>)
    ensures Run(Direct(), run, steps) && |run| == |steps| + 1 && forall i :: 0 <= i < |steps| ==>
      Patient(run[i], steps[i])
    ensures var s := run[|steps|];
      1 in s.held && s.pending == {} && s.callback.Quiet? && s.wire.Nothing? && !s.filter.Reports(KeyBits(Direct(), 1))
  {
    hide Run;
    DirectBits(1);
    run, steps := LatePut();
    run, steps := Extend(Direct(), run, steps, Arrive(0));
    run, steps := Extend(Direct(), run, steps, Overwrite);
    run, steps := Extend(Direct(), run, steps, Complete);
    run, steps := Extend(Direct(), run, steps, ClearMerging);
    run, steps := Extend(Direct(), run, steps, Merge);
  }

  /** A page is put and added while the filter is blocked. */
  lemma PutWhileBlocked() returns (run: seq<State>, steps: seq<Step>)
    ensures |steps| == 4 && |run| == 5 && Run(Direct(), run, steps)
    ensures forall i :: 0 <= i < 4 ==> Patient(run[i], steps[i]) && Prompt(run[i], steps[i])
    ensures run[4] == State(Filter({}, {1}, true), Waiting, false, Quiet, Replied({}), map[0 := 1], {}, {0}, {},
      BLANK.(buffered := {1}, since := {1}, kept := {1}))
  {
    hide Run;
    DirectBits(1);
    run, steps := Begin(Direct());
    run, steps := Extend(Direct(), run, steps, Block);
    run, steps := Extend(Direct(), run, steps, Snapshot({}));
    run, steps := Extend(Direct(), run, steps, SendPut(0, 1));
    run, steps := Extend(Direct(), run, steps, AddKey(0));
  }

  /** The refresh completes; the switch is not yet cleared. */
  lemma Completed() returns (run: seq<State>, steps: seq<Step>)
    ensures |steps| == 7 && |run| == 8 && Run(Direct(), run, steps)
    ensures forall i :: 0 <= i < 7 ==> Patient(run[i], steps[i]) && Prompt(run[i], steps[i])
    ensures run[7] == State(Filter({}, {1}, true), Waiting, true, DoneSet, Nothing, map[0 := 1], {}, {}, {1},
      BLANK.(buffered := {1}, since := {1}, kept := {1}))
  {
    hide Run;
    run, steps := PutWhileBlocked();
    run, steps := Extend(Direct(), run, steps, Arrive(0));
    run, steps := Extend(Direct(), run, steps, Overwrite);
    run, steps := Extend(Direct(), run, steps, Complete);
  }

  /** The callback announces the refresh done before it merges. A worker that blocks again in between clears
      the temporary bitmap, and a page added during the refresh is forgotten. */
  lemma HastyBlockForgets() returns (run: seq<State>, steps: seq<Step>)
    ensures Run(Direct(), run, steps) && |run| == |steps| + 1 && forall i :: 0 <= i < |steps| ==>
      Prompt(run[i], steps[i])
    ensures var s := run[|steps|];
      1 in s.held && s.pending == {} && s.callback.Quiet? && !s.filter.Reports(KeyBits(Direct(), 1))
  {
    hide Run;
    DirectBits(1);
    run, steps := Completed();
    run, steps := Extend(Direct(), run, steps, SeeDone);
    run, steps := Extend(Direct(), run, steps, Block);
    run, steps := Extend(Direct(), run, steps, ClearMerging);
    run, steps := Extend(Direct(), run, steps, Merge);
  }

  /** Between clearing the switch and merging, a page added during the refresh is reported absent. */
  lemma GapForgets() returns (run: seq<State>, steps: seq<Step>)
    ensures Run(Direct(), run, steps) && |run| == |steps| + 1
    ensures forall i :: 0 <= i < |steps| ==> Patient(run[i], steps[i]) && Prompt(run[i], steps[i])
    ensures var s := run[|steps|];
      1 in s.held && s.pending == {} && s.callback.Cleared? && !s.filter.Reports(KeyBits(Direct(), 1))
  {
    hide Run;
    DirectBits(1);
    run, steps := Completed();
    run, steps := Extend(Direct(), run, steps, ClearMerging);
  }
}
