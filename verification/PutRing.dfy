/** The batched put ring of a client: M batches of B slots in one send buffer. Senders fill slots one at a
    time under a spin lock; a worker per full batch sends it; a wait bit per batch keeps senders off it. */
module PutRing {
  import opened Types
  import opened Arith

  datatype Put = Put(page: seq<bv8>, key: Key)

  /** What the network card sends: the slot's number and what the slot holds when it is read. */
  datatype Msg = Msg(id: nat, put: Put)

  /** The sender that holds the lock, if any. */
  datatype Sender =
    | Idle
    | Trying(put: Put, id: nat, retries: nat)
    | Clear(put: Put, id: nat)
    | Copied(put: Put, id: nat)

  /** A full batch: wait bit set, work scheduled, posted and partly sent. */
  datatype Stage = Marked | Scheduled | Posted(msgs: seq<Msg>)

  datatype Work = Work(batch: nat, stage: Stage)

  /** Held while a batch is sent, and, after the wait bit is cleared, until the worker is done. */
  datatype Mutex = Free | Sending(b: nat) | Finishing(b: nat)

  datatype Sent = Sent(batch: nat, msgs: seq<Msg>)

  /** A wait bit is set for the batches in works. full and partial are the puts accepted so far, in order,
      B at a time; batch numbers count from the start and wrap around the ring of M. */
  datatype State = State(msgId: nat, sender: Sender, buffer: seq<Put>, works: map<nat, Work>, mutex: Mutex,
                         full: seq<seq<Put>>, partial: seq<Put>, sent: seq<Sent>)

  datatype Ring = Ring(m: nat, b: nat) {
    predicate Ok() {
      m > 0 && b > 0
    }

    function NumMsgs(): nat {
      m * b
    }
  }

  datatype Step =
    | Take(put: Put)
    | Retry
    | GiveUp
    | FindClear
    | Copy
    | Accept
    | Schedule(b: nat)
    | Lock(b: nat)
    | Transmit(b: nat)
    | ClearWait(b: nat)
    | Unlock

  predicate Waits(r: Ring, s: State, id: nat)
    requires r.Ok()
  {
    id / r.b in s.works
  }

  predicate Enabled(r: Ring, s: State, step: Step)
    requires r.Ok()
  {
    match step
    case Take(put) => s.sender.Idle?
    case Retry => s.sender.Trying? && Waits(r, s, s.sender.id) && s.sender.retries <= 5
    case GiveUp => s.sender.Trying? && Waits(r, s, s.sender.id) && s.sender.retries > 5 && s.msgId > 0
    case FindClear => s.sender.Trying? && !Waits(r, s, s.sender.id)
    case Copy => s.sender.Clear? && s.sender.id < |s.buffer|
    case Accept => s.sender.Copied?
    case Schedule(b) => b in s.works && s.works[b].stage.Marked?
    case Lock(b) => s.mutex.Free? && b in s.works && s.works[b].stage.Scheduled?
    case Transmit(b) =>
      && b in s.works && s.works[b].stage.Posted? && |s.works[b].stage.msgs| < r.b
      && b * r.b + |s.works[b].stage.msgs| < |s.buffer|
    case ClearWait(b) => b in s.works && s.works[b].stage.Posted? && |s.works[b].stage.msgs| == r.b
    case Unlock => s.mutex.Finishing?
  }

  /** Slot i of batch b. */
  function Slot(r: Ring, b: nat, i: nat): nat {
    b * r.b + i
  }

  function Next(r: Ring, s: State, step: Step): State
    requires r.Ok() && Enabled(r, s, step)
  {
    match step
    case Take(put) => s.(sender := Trying(put, s.msgId % r.NumMsgs(), 0), msgId := s.msgId + 1)
    case Retry => s.(sender := s.sender.(retries := s.sender.retries + 1))
    case GiveUp => s.(sender := Idle, msgId := s.msgId - 1)
    case FindClear => s.(sender := Clear(s.sender.put, s.sender.id))
    case Copy => s.(sender := Copied(s.sender.put, s.sender.id), buffer := s.buffer[s.sender.id := s.sender.put])
    case Accept =>
      if s.sender.id % r.b != r.b - 1 then s.(sender := Idle, partial := s.partial + [s.sender.put])
      else s.(sender := Idle, works := s.works[s.sender.id / r.b := Work(|s.full|, Marked)],
              full := s.full + [s.partial + [s.sender.put]], partial := [])
    case Schedule(b) => s.(works := s.works[b := s.works[b].(stage := Scheduled)])
    case Lock(b) => s.(works := s.works[b := s.works[b].(stage := Posted([]))], mutex := Sending(b))
    case Transmit(b) =>
      var msgs := s.works[b].stage.msgs;
      var id := Slot(r, b, |msgs|);
      s.(works := s.works[b := s.works[b].(stage := Posted(msgs + [Msg(id, s.buffer[id])]))])
    case ClearWait(b) =>
      s.(works := s.works - {b}, mutex := Finishing(b),
         sent := s.sent + [Sent(s.works[b].batch, s.works[b].stage.msgs)])
    case Unlock => s.(mutex := Free)
  }

  // ---- Slots and batches ----

  lemma SlotSplit(r: Ring, b: nat, i: nat)
    requires r.Ok() && i < r.b
    ensures Slot(r, b, i) / r.b == b && Slot(r, b, i) % r.b == i
    ensures b < r.m ==> Slot(r, b, i) < r.NumMsgs()
  {
    Quotient(b, r.b, i);
    MulMonotone(b + 1, r.m, r.b);
    MulNext(b, r.b);
  }

  /** The message number modulo the ring's size is the slot in the batch number modulo the batches. */
  lemma SlotOf(r: Ring, g: nat, i: nat)
    requires r.Ok() && i < r.b
    ensures r.NumMsgs() > 0 && (g * r.b + i) % r.NumMsgs() == Slot(r, g % r.m, i)
  {
    MulMonotone(1, r.m, r.b);
    SlotSplit(r, g % r.m, i);
    Regroup(g, r.m, r.b);
    Quotient(g / r.m, r.NumMsgs(), Slot(r, g % r.m, i));
  }

  lemma Regroup(g: nat, m: nat, b: nat)
    requires m > 0
    ensures g * b == g / m * (m * b) + g % m * b
  {
    var q, x := g / m, g % m;
    assert g == q * m + x;
    assert (q * m + x) * b == q * m * b + x * b;
    assert q * m * b == q * (m * b);
  }

  // ---- The invariant ----

  ghost predicate Init(r: Ring, s: State) {
    && r.Ok() && s.msgId == 0 && s.sender == Idle && |s.buffer| == r.NumMsgs() && s.works == map[] && s.mutex == Free
    && s.full == [] && s.partial == [] && s.sent == []
  }

  ghost predicate Sized(r: Ring, s: State) {
    && r.Ok() && |s.buffer| == r.NumMsgs() && |s.partial| < r.b
    && forall g :: 0 <= g < |s.full| ==> |s.full[g]| == r.b
  }

  /** The ring's batch that senders are filling. */
  function Here(r: Ring, s: State): nat
    requires r.Ok()
  {
    |s.full| % r.m
  }

  /** The message number counts the puts accepted, and one in the making. */
  ghost predicate SenderOk(r: Ring, s: State)
    requires r.Ok()
  {
    var k := Slot(r, |s.full|, |s.partial|);
    match s.sender
    case Idle => s.msgId == k
    case Trying(put, id, retries) => s.msgId == k + 1 && id == Slot(r, Here(r, s), |s.partial|) && retries <= 6
    case Clear(put, id) => s.msgId == k + 1 && id == Slot(r, Here(r, s), |s.partial|) && Here(r, s) !in s.works
    case Copied(put, id) =>
      && s.msgId == k + 1 && id == Slot(r, Here(r, s), |s.partial|) && Here(r, s) !in s.works
      && id < |s.buffer| && s.buffer[id] == put
  }

  /** The first slots of a batch of the ring hold these puts. */
  ghost predicate Hold(r: Ring, buffer: seq<Put>, b: nat, puts: seq<Put>) {
    forall i :: 0 <= i < |puts| && Slot(r, b, i) < |buffer| ==> buffer[Slot(r, b, i)] == puts[i]
  }

  /** The messages are those of the first puts of batch g. */
  ghost predicate Carry(r: Ring, msgs: seq<Msg>, g: nat, puts: seq<Put>)
    requires r.Ok()
  {
    |msgs| <= |puts| && forall i :: 0 <= i < |msgs| ==> msgs[i] == Msg(Slot(r, g % r.m, i), puts[i])
  }

  /** While its wait bit is set, a batch is the last accepted in its place of the ring, its slots hold the puts
      accepted for it, and what has been sent of it are the first of them. */
  ghost predicate WorkOk(r: Ring, s: State, b: nat)
    requires r.Ok() && b in s.works
  {
    var w := s.works[b];
    && w.batch < |s.full| <= w.batch + r.m && b == w.batch % r.m && Hold(r, s.buffer, b, s.full[w.batch])
    && (w.stage.Posted? ==> s.mutex == Sending(b) && Carry(r, w.stage.msgs, w.batch, s.full[w.batch]))
  }

  ghost predicate WorksOk(r: Ring, s: State)
    requires r.Ok()
  {
    && (forall b :: b in s.works ==> WorkOk(r, s, b))
    && (s.mutex.Sending? ==> s.mutex.b in s.works && s.works[s.mutex.b].stage.Posted?)
  }

  ghost predicate PartialOk(r: Ring, s: State)
    requires r.Ok()
  {
    Hold(r, s.buffer, Here(r, s), s.partial) && (s.partial != [] ==> Here(r, s) !in s.works)
  }

  ghost predicate SentWell(r: Ring, sent: Sent, full: seq<seq<Put>>)
    requires r.Ok()
  {
    sent.batch < |full| && |sent.msgs| == r.b && Carry(r, sent.msgs, sent.batch, full[sent.batch])
  }

  /** Every batch sent carried exactly its puts in order, once. */
  ghost predicate SentOk(r: Ring, s: State)
    requires r.Ok()
  {
    && (forall p :: 0 <= p < |s.sent| ==> SentWell(r, s.sent[p], s.full))
    && (forall p, q :: 0 <= p < q < |s.sent| ==> s.sent[p].batch != s.sent[q].batch)
  }

  ghost predicate WasSent(s: State, g: nat) {
    exists p :: 0 <= p < |s.sent| && s.sent[p].batch == g
  }

  ghost predicate InWork(r: Ring, s: State, g: nat)
    requires r.Ok()
  {
    g % r.m in s.works && s.works[g % r.m].batch == g
  }

  /** Every full batch is either in work or sent. */
  ghost predicate Partitioned(r: Ring, s: State)
    requires r.Ok()
  {
    forall g :: 0 <= g < |s.full| ==> (InWork(r, s, g) <==> !WasSent(s, g))
  }

  ghost predicate Inv(r: Ring, s: State) {
    Sized(r, s) && SenderOk(r, s) && WorksOk(r, s) && PartialOk(r, s) && SentOk(r, s) && Partitioned(r, s)
  }

  lemma SamePlace(g: nat, m: nat)
    requires m > 0
    ensures (g + m) % m == g % m
  {
    Quotient(g / m + 1, m, g % m);
    MulNext(g / m, m);
    assert g + m == (g / m + 1) * m + g % m;
  }

  lemma Copying(r: Ring, s: State)
    requires Inv(r, s) && Enabled(r, s, Copy)
    ensures Inv(r, Next(r, s, Copy))
  {
    var s' := Next(r, s, Copy);
    var h, j := Here(r, s), |s.partial|;
    forall b: nat, i: nat | i < r.b && (b != h || i != j) ensures Slot(r, b, i) != s.sender.id {
      SlotSplit(r, b, i);
      SlotSplit(r, h, j);
    }
    forall b | b in s'.works ensures WorkOk(r, s', b) { assert WorkOk(r, s, b); }
    assert forall g :: 0 <= g < |s.full| ==>
      (InWork(r, s', g) <==> InWork(r, s, g)) && (WasSent(s', g) <==> WasSent(s, g));
  }

  lemma Accepting(r: Ring, s: State)
    requires Inv(r, s) && Enabled(r, s, Accept)
    ensures Inv(r, Next(r, s, Accept))
  {
    var s' := Next(r, s, Accept);
    var h, j := Here(r, s), |s.partial|;
    SlotSplit(r, h, j);
    MulNext(|s.full|, r.b);
    if j == r.b - 1 {
      assert s'.full[|s.full|] == s.partial + [s.sender.put];
      forall b | b in s'.works ensures WorkOk(r, s', b) {
        if b != h {
          assert WorkOk(r, s, b);
          SamePlace(s.works[b].batch, r.m);
        }
      }
      forall p | 0 <= p < |s'.sent| ensures SentWell(r, s'.sent[p], s'.full) { assert SentWell(r, s.sent[p], s.full); }
      forall g: nat | g < |s'.full| ensures InWork(r, s', g) <==> !WasSent(s', g) {
        if g < |s.full| { assert InWork(r, s, g) <==> !WasSent(s, g); }
        assert WasSent(s', g) <==> WasSent(s, g);
      }
    } else {
      forall b | b in s'.works ensures WorkOk(r, s', b) { assert WorkOk(r, s, b); }
      forall g: nat | g < |s'.full|
        ensures InWork(r, s', g) <==> !WasSent(s', g)
      {
        assert InWork(r, s, g) <==> !WasSent(s, g);
      }
    }
  }

  /** A worker's step on batch b, up to the completion of its send, changes only that batch's stage. */
  lemma Working(r: Ring, s: State, step: Step)
    requires Inv(r, s) && Enabled(r, s, step) && (step.Schedule? || step.Lock? || step.Transmit?)
    ensures Inv(r, Next(r, s, step))
  {
    var s' := Next(r, s, step);
    assert WorkOk(r, s, step.b);
    if step.Transmit? { SlotSplit(r, step.b, |s.works[step.b].stage.msgs|); }
    forall b | b in s'.works ensures WorkOk(r, s', b) { assert WorkOk(r, s, b); }
    forall g: nat | g < |s.full|
      ensures InWork(r, s', g) <==> !WasSent(s', g)
    {
      assert InWork(r, s, g) <==> !WasSent(s, g);
    }
  }

  lemma Clearing(r: Ring, s: State, b: nat)
    requires Inv(r, s) && Enabled(r, s, ClearWait(b))
    ensures Inv(r, Next(r, s, ClearWait(b)))
  {
    var s' := Next(r, s, ClearWait(b));
    var w := s.works[b];
    assert WorkOk(r, s, b);
    assert InWork(r, s, w.batch);
    forall c | c in s'.works ensures WorkOk(r, s', c) { assert WorkOk(r, s, c); }
    assert s'.sent[|s.sent|].batch == w.batch;
    forall g: nat | g < |s.full| ensures InWork(r, s', g) <==> !WasSent(s', g) {
      assert InWork(r, s, g) <==> !WasSent(s, g);
      forall p | 0 <= p < |s.sent| ensures s'.sent[p] == s.sent[p] {}
      if WasSent(s, g) { var p :| 0 <= p < |s.sent| && s.sent[p].batch == g; assert s'.sent[p].batch == g; }
    }
  }

  lemma Waiting(r: Ring, s: State, step: Step)
    requires Inv(r, s) && Enabled(r, s, step)
    requires (step.Take? || step.Retry? || step.GiveUp? || step.FindClear? || step.Unlock?)
    ensures Inv(r, Next(r, s, step))
  {
    var s' := Next(r, s, step);
    SlotOf(r, |s.full|, |s.partial|);
    SlotSplit(r, Here(r, s), |s.partial|);
    forall b | b in s'.works ensures WorkOk(r, s', b) { assert WorkOk(r, s, b); }
    forall g: nat | g < |s.full|
      ensures InWork(r, s', g) <==> !WasSent(s', g)
    {
      assert InWork(r, s, g) <==> !WasSent(s, g);
    }
  }

  lemma StepKeepsInv(r: Ring, s: State, step: Step)
    requires Inv(r, s) && Enabled(r, s, step)
    ensures Inv(r, Next(r, s, step))
  {
    match step
    case Copy => Copying(r, s);
    case Accept => Accepting(r, s);
    case Schedule(b) => Working(r, s, step);
    case Lock(b) => Working(r, s, step);
    case Transmit(b) => Working(r, s, step);
    case ClearWait(b) => Clearing(r, s, b);
    case _ => Waiting(r, s, step);
  }

  // ---- Runs ----

  ghost predicate Run(r: Ring, run: seq<State>, steps: seq<Step>) {
    && |run| == |steps| + 1
    && Init(r, run[0])
    && forall i :: 0 <= i < |steps| ==> Enabled(r, run[i], steps[i]) && run[i + 1] == Next(r, run[i], steps[i])
  }

  lemma {:induction false} RunKeepsInv(r: Ring, run: seq<State>, steps: seq<Step>, n: nat)
    requires Run(r, run, steps) && n < |run|
    ensures Inv(r, run[n])
  {
    if n == 0 {
      MulMonotone(1, r.m, r.b);
    } else {
      RunKeepsInv(r, run, steps, n - 1);
      StepKeepsInv(r, run[n - 1], steps[n - 1]);
    }
  }

  /** The puts accepted, in order. */
  function Accepted(s: State): seq<Put> {
    Flatten(s.full) + s.partial
  }

  function Flatten(batches: seq<seq<Put>>): seq<Put> {
    if batches == [] then [] else Flatten(batches[..|batches| - 1]) + batches[|batches| - 1]
  }

  /** A put is accepted exactly by the step that returns 0 for it, and none is ever taken back. */
  lemma StepAccepts(r: Ring, s: State, step: Step)
    requires r.Ok() && Enabled(r, s, step)
    ensures Accepted(Next(r, s, step)) == if step.Accept? then Accepted(s) + [s.sender.put] else Accepted(s)
  {
    var s' := Next(r, s, step);
    if step.Accept? && s.sender.id % r.b == r.b - 1 {
      assert s'.full[..|s.full|] == s.full;
    }
  }

  lemma {:induction false} FlattenAt(r: Ring, batches: seq<seq<Put>>, g: nat, i: nat)
    requires r.Ok() && (forall h :: 0 <= h < |batches| ==> |batches[h]| == r.b) && g < |batches| && i < r.b
    ensures |Flatten(batches)| == |batches| * r.b && Slot(r, g, i) < |Flatten(batches)|
    ensures Flatten(batches)[Slot(r, g, i)] == batches[g][i]
  {
    var n := |batches| - 1;
    FlattenLength(r, batches[..n]);
    FlattenLength(r, batches);
    MulMonotone(g + 1, |batches|, r.b);
    MulNext(g, r.b);
    if g < n {
      FlattenAt(r, batches[..n], g, i);
    }
  }

  lemma {:induction false} FlattenLength(r: Ring, batches: seq<seq<Put>>)
    requires forall h :: 0 <= h < |batches| ==> |batches[h]| == r.b
    ensures |Flatten(batches)| == |batches| * r.b
  {
    if batches != [] {
      FlattenLength(r, batches[..|batches| - 1]);
      MulNext(|batches| - 1, r.b);
    }
  }

  /** No slot is overwritten between its copy and the completion of its batch's send: in every state, every
      accepted put of a batch not yet sent is still in its slot. */
  lemma StillInPlace(r: Ring, run: seq<State>, steps: seq<Step>, n: nat, g: nat, i: nat)
    requires Run(r, run, steps) && n < |run|
    requires i < r.b && Slot(r, g, i) < |Accepted(run[n])| && !WasSent(run[n], g)
    ensures var s := run[n]; var id := Slot(r, g, i) % r.NumMsgs();
      id < |s.buffer| && s.buffer[id] == Accepted(s)[Slot(r, g, i)]
  {
    RunKeepsInv(r, run, steps, n);
    var s := run[n];
    FlattenLength(r, s.full);
    SlotOf(r, g, i);
    SlotSplit(r, g % r.m, i);
    MulMonotone(g, |s.full|, r.b);
    MulMonotone(|s.full| + 1, g, r.b);
    MulMonotone(g + 1, |s.full|, r.b);
    MulNext(|s.full|, r.b);
    MulNext(g, r.b);
    if g < |s.full| {
      FlattenAt(r, s.full, g, i);
      assert InWork(r, s, g);
      assert WorkOk(r, s, g % r.m);
    }
  }

  /** Each batch sent carried exactly the B puts accepted for it, in order, and no batch is sent twice. */
  lemma SentInOrder(r: Ring, run: seq<State>, steps: seq<Step>, n: nat, p: nat, i: nat)
    requires Run(r, run, steps) && n < |run| && p < |run[n].sent| && i < r.b
    ensures var s := run[n]; var g := s.sent[p].batch;
      && |s.sent[p].msgs| == r.b && Slot(r, g, i) < |Accepted(s)| && r.NumMsgs() > 0
      && s.sent[p].msgs[i] == Msg(Slot(r, g, i) % r.NumMsgs(), Accepted(s)[Slot(r, g, i)])
    ensures forall q :: 0 <= q < |run[n].sent| && run[n].sent[q].batch == run[n].sent[p].batch ==> q == p
  {
    RunKeepsInv(r, run, steps, n);
    var s := run[n];
    assert SentWell(r, s.sent[p], s.full);
    SlotOf(r, s.sent[p].batch, i);
    FlattenAt(r, s.full, s.sent[p].batch, i);
  }

  /** Where an accepted put is. */
  datatype Whereabouts = InPartial | InWorks(b: nat) | InSent(p: nat)

  ghost predicate At(r: Ring, s: State, g: nat, w: Whereabouts) {
    match w
    case InPartial => g == |s.full|
    case InWorks(b) => b in s.works && s.works[b].batch == g
    case InSent(p) => p < |s.sent| && s.sent[p].batch == g
  }

  /** Every put that returned 0 is in exactly one place: the partial batch, one scheduled batch, or one batch
      of the history of sends. */
  lemma ExactlyOnce(r: Ring, run: seq<State>, steps: seq<Step>, n: nat, g: nat, i: nat) returns (w: Whereabouts)
    requires Run(r, run, steps) && n < |run| && i < r.b && Slot(r, g, i) < |Accepted(run[n])|
    ensures At(r, run[n], g, w) && forall v :: At(r, run[n], g, v) ==> v == w
  {
    RunKeepsInv(r, run, steps, n);
    var s := run[n];
    FlattenLength(r, s.full);
    MulMonotone(|s.full| + 1, g, r.b);
    MulNext(|s.full|, r.b);
    forall b | b in s.works
      ensures s.works[b].batch < |s.full| && b == s.works[b].batch % r.m
    {
      assert WorkOk(r, s, b);
    }
    forall p | 0 <= p < |s.sent| ensures s.sent[p].batch < |s.full| { assert SentWell(r, s.sent[p], s.full); }
    if g == |s.full| {
      w := InPartial;
    } else {
      assert InWork(r, s, g) <==> !WasSent(s, g);
      if WasSent(s, g) {
        var p: nat :| p < |s.sent| && s.sent[p].batch == g;
        w := InSent(p);
      } else {
        w := InWorks(g % r.m);
      }
    }
  }

  // ---- When a put waits ----

  /** A sender finds its batch clear if and only if puts of the batch are in already, its place in the ring was never
      used, or the batch last accepted there has been sent; else it tries again, and after six times gives up. */
  lemma WaitsIff(r: Ring, run: seq<State>, steps: seq<Step>, n: nat)
    requires Run(r, run, steps) && n < |run| && run[n].sender.Trying?
    ensures var s := run[n];
      var free := s.partial != [] || |s.full| < r.m || WasSent(s, |s.full| - r.m);
      && (Enabled(r, s, FindClear) <==> free)
      && (Enabled(r, s, Retry) <==> !free && s.sender.retries < 6)
      && (Enabled(r, s, GiveUp) <==> !free && s.sender.retries == 6)
    ensures run[n].sender.id / r.b == |run[n].full| % r.m
  {
    RunKeepsInv(r, run, steps, n);
    WaitsInPlace(r, run[n]);
    SlotSplit(r, Here(r, run[n]), |run[n].partial|);
  }

  lemma WaitsInPlace(r: Ring, s: State)
    requires Inv(r, s) && s.sender.Trying?
    ensures Waits(r, s, s.sender.id) <==> s.partial == [] && |s.full| >= r.m && !WasSent(s, |s.full| - r.m)
  {
    var h := Here(r, s);
    SlotSplit(r, h, |s.partial|);
    if h in s.works {
      var w := s.works[h];
      assert WorkOk(r, s, h);
      if |s.full| < w.batch + r.m {
        NotThere(w.batch, |s.full|, r.m);
      }
      assert InWork(r, s, w.batch);
    } else if |s.full| >= r.m {
      SamePlace(|s.full| - r.m, r.m);
      assert !InWork(r, s, |s.full| - r.m);
    }
  }

  /** Batches less than the ring apart are in different places of it. */
  lemma NotThere(g: nat, h: nat, m: nat)
    requires g < h < g + m
    ensures g % m != h % m
  {
    if g % m == h % m {
      var p, q := g / m, h / m;
      assert h - g == (q - p) * m;
      if q > p { MulMonotone(1, q - p, m); }
    }
  }

  /** While a batch is in work, the worker that has it, or the card, can go on; and a sender that waits for none can. */
  lemma NeverStuck(r: Ring, run: seq<State>, steps: seq<Step>, n: nat) returns (step: Step)
    requires Run(r, run, steps) && n < |run|
    requires var s := run[n]; s.works != map[] || s.mutex != Free || s.sender != Idle
    ensures Enabled(r, run[n], step) && !step.Take?
    ensures run[n].works != map[] || run[n].mutex != Free ==>
      step.Schedule? || step.Lock? || step.Transmit? || step.ClearWait? || step.Unlock?
  {
    RunKeepsInv(r, run, steps, n);
    var s := run[n];
    match s.mutex
    case Finishing(_) => step := Unlock;
    case Sending(b) =>
      assert WorkOk(r, s, b);
      if |s.works[b].stage.msgs| < r.b {
        SlotSplit(r, b, |s.works[b].stage.msgs|);
        step := Transmit(b);
      } else {
        step := ClearWait(b);
      }
    case Free =>
      if b :| b in s.works {
        assert WorkOk(r, s, b);
        step := if s.works[b].stage.Marked? then Schedule(b) else Lock(b);
      } else {
        SlotSplit(r, Here(r, s), |s.partial|);
        step := if s.sender.Trying? then FindClear else if s.sender.Clear? then Copy else Accept;
      }
  }

  /** A put refused with -6 was tested seven times, each time with the batch last accepted in its place of the ring
      not yet sent, and leaves no trace: the message number, the buffer and the accepted puts are as they were when it
      began, whatever the workers did meanwhile. */
  lemma {:induction false} RefusalLeavesNoTrace(r: Ring, run: seq<State>, steps: seq<Step>, m: nat, n: nat)
    requires Run(r, run, steps) && m < n < |steps| && steps[m].Take? && steps[n].GiveUp?
    requires forall i :: m < i <= n ==> run[i].sender.Trying?
    ensures var s, s' := run[m], run[n + 1];
      && s'.msgId == s.msgId && s'.sender == s.sender && s'.buffer == s.buffer && Accepted(s') == Accepted(s)
      && run[n].sender.retries == 6
    ensures run[m].partial == [] && |run[m].full| >= r.m
    ensures forall i :: m < i <= n && (steps[i].Retry? || steps[i].GiveUp?) ==> !WasSent(run[i], |run[m].full| - r.m)
  {
    RunKeepsInv(r, run, steps, n);
    WhileTrying(r, run, steps, m, n);
    WaitsIff(r, run, steps, n);
    forall i | m < i <= n && (steps[i].Retry? || steps[i].GiveUp?)
      ensures !WasSent(run[i], |run[m].full| - r.m)
    {
      WaitsIff(r, run, steps, i);
      WhileTrying(r, run, steps, m, i);
    }
  }

  lemma {:induction false} WhileTrying(r: Ring, run: seq<State>, steps: seq<Step>, m: nat, n: nat)
    requires Run(r, run, steps) && m < n < |run| && steps[m].Take?
    requires forall i :: m < i <= n ==> run[i].sender.Trying?
    ensures run[n].msgId == run[m].msgId + 1 && run[n].buffer == run[m].buffer
    ensures run[n].full == run[m].full && run[n].partial == run[m].partial
  {
    if n > m + 1 {
      WhileTrying(r, run, steps, m, n - 1);
      assert run[n] == Next(r, run[n - 1], steps[n - 1]);
    }
  }
}
