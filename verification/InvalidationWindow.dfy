/** Invalidations are written into the server's memory, one slot per message number modulo N, and only the
    last number of a round is acknowledged. The channel delivers in order: a key is written to its slot and
    then its number becomes visible to the server's poller. */
module InvalidationWindow {
  import opened Types
  import opened Arith

  /** A write on its way: the message number modulo N, and the key. */
  datatype Write = Write(id: nat, key: Key)

  /** awaiting: the client has sent the round's last number and holds the lock until the reply comes. The
      logs record the requests made and the keys the server read. */
  datatype State = State(msgId: nat, awaiting: bool, channel: seq<Write>, memory: seq<Key>, completions: seq<nat>,
                         reply: bool, requested: seq<Key>, processed: seq<Key>)

  /** The slot of a message. */
  function IdOf(n: nat, msgId: nat): (id: nat)
    requires n > 0
    ensures id < n
  {
    msgId % n
  }

  datatype Step = Send(key: Key) | Deliver | Process | Receive

  ghost predicate Init(n: nat, s: State) {
    && n > 0 && s.msgId == 0 && !s.awaiting && s.channel == [] && |s.memory| == n && s.completions == [] && !s.reply
    && s.requested == [] && s.processed == []
  }

  predicate Enabled(n: nat, s: State, step: Step) {
    match step
    case Send(key) => !s.awaiting && n > 0
    case Deliver => s.channel != [] && s.channel[0].id < |s.memory|
    case Process => s.completions != [] && s.completions[0] < |s.memory|
    case Receive => s.awaiting && s.reply
  }

  function Next(n: nat, s: State, step: Step): State
    requires Enabled(n, s, step)
  {
    match step
    case Send(key) =>
      var id := IdOf(n, s.msgId);
      s.(msgId := s.msgId + 1, channel := s.channel + [Write(id, key)], requested := s.requested + [key],
          awaiting := id >= n - 1)
    case Deliver =>
      var w := s.channel[0];
      s.(channel := s.channel[1..], memory := s.memory[w.id := w.key], completions := s.completions + [w.id])
    case Process =>
      var id := s.completions[0];
      s.(completions := s.completions[1..], processed := s.processed + [s.memory[id]], reply := s.reply || id == n - 1)
    case Receive => s.(awaiting := false, reply := false)
  }

  // ---- The window ----

  /** The first message of the round under way. */
  ghost function Base(n: nat, s: State): int
    requires n > 0
  {
    if s.awaiting then s.msgId - n else s.msgId - IdOf(n, s.msgId)
  }

  /** Delivered and not yet processed: the server's slots. */
  ghost predicate Visible(n: nat, s: State)
    requires n > 0 && |s.memory| == n && |s.processed| + |s.completions| <= |s.requested|
  {
    forall j :: |s.processed| <= j < |s.processed| + |s.completions| ==>
      s.completions[j - |s.processed|] == IdOf(n, j) && s.memory[IdOf(n, j)] == s.requested[j]
  }

  /** Sent and not yet delivered. */
  ghost predicate OnTheWay(n: nat, s: State)
    requires n > 0 && |s.processed| + |s.completions| + |s.channel| <= |s.requested|
  {
    var read := |s.processed| + |s.completions|;
    forall j :: read <= j < read + |s.channel| ==> s.channel[j - read] == Write(IdOf(n, j), s.requested[j])
  }

  ghost predicate StartsRound(n: nat, base: int) {
    n > 0 && base % n == 0
  }

  ghost predicate Inv(n: nat, s: State) {
    && n > 0 && |s.memory| == n
    && s.msgId == |s.requested| == |s.processed| + |s.completions| + |s.channel|
    && s.processed == s.requested[..|s.processed|]
    && 0 <= Base(n, s) <= |s.processed| && StartsRound(n, Base(n, s)) && s.msgId <= Base(n, s) + n
    && (s.reply ==> s.awaiting && |s.processed| == s.msgId)
    && (s.awaiting && |s.processed| == s.msgId ==> s.reply)
    && Visible(n, s) && OnTheWay(n, s)
  }

  /** Within a round every message has its own slot. */
  lemma OwnSlot(n: nat, base: nat, j: nat)
    requires StartsRound(n, base) && base <= j < base + n
    ensures IdOf(n, j) == j - base
  {
    var q := base / n;
    assert base == q * n;
    Quotient(q, n, j - base);
  }

  lemma NextRound(n: nat, base: nat)
    requires StartsRound(n, base)
    ensures StartsRound(n, base + n)
  {
    var q := base / n;
    assert base == q * n;
    MulNext(q, n);
    Quotient(q + 1, n, 0);
  }

  lemma BaseOf(n: nat, k: nat)
    requires n > 0
    ensures StartsRound(n, k - IdOf(n, k)) && IdOf(n, k) <= k
  {
    var q := k / n;
    assert k == q * n + k % n;
    Quotient(q, n, 0);
  }

  lemma Sending(n: nat, s: State, key: Key)
    requires Inv(n, s) && Enabled(n, s, Send(key))
    ensures Inv(n, Next(n, s, Send(key)))
  {
    hide IdOf, StartsRound;
    var s', base, id := Next(n, s, Send(key)), Base(n, s), IdOf(n, s.msgId);
    if id < n - 1 { OwnSlot(n, base, s.msgId + 1); }
    assert Base(n, s') == base;
  }

  /** The slot a delivery writes is not one the server has yet to read. */
  lemma Delivering(n: nat, s: State)
    requires Inv(n, s) && Enabled(n, s, Deliver)
    ensures Inv(n, Next(n, s, Deliver)) && s.channel[0].id !in s.completions
  {
    hide IdOf, StartsRound;
    var s', base, j := Next(n, s, Deliver), Base(n, s), |s.processed| + |s.completions|;
    assert s.channel[0] == Write(IdOf(n, j), s.requested[j]);
    OwnSlot(n, base, j);
    forall i | |s.processed| <= i < j ensures IdOf(n, i) != IdOf(n, j) { OwnSlot(n, base, i); }
    assert forall i :: 0 <= i < |s.completions| ==> s.completions[i] == IdOf(n, |s.processed| + i);
  }

  lemma Processing(n: nat, s: State)
    requires Inv(n, s) && Enabled(n, s, Process)
    ensures Inv(n, Next(n, s, Process))
  {
    hide IdOf, StartsRound;
    var s', base, j := Next(n, s, Process), Base(n, s), |s.processed|;
    assert s.completions[0] == IdOf(n, j) && s.memory[IdOf(n, j)] == s.requested[j];
    OwnSlot(n, base, j);
  }

  lemma Receiving(n: nat, s: State)
    requires Inv(n, s) && Enabled(n, s, Receive)
    ensures Inv(n, Next(n, s, Receive))
  {
    NextRound(n, Base(n, s));
    BaseOf(n, s.msgId);
    OwnSlot(n, s.msgId, s.msgId);
  }

  lemma StepKeepsInv(n: nat, s: State, step: Step)
    requires Inv(n, s) && Enabled(n, s, step)
    ensures Inv(n, Next(n, s, step))
  {
    match step
    case Send(key) => Sending(n, s, key);
    case Deliver => Delivering(n, s);
    case Process => Processing(n, s);
    case Receive => Receiving(n, s);
  }

  // ---- Runs ----

  ghost predicate Run(n: nat, run: seq<State>, steps: seq<Step>) {
    && |run| == |steps| + 1
    && Init(n, run[0])
    && forall i :: 0 <= i < |steps| ==> Enabled(n, run[i], steps[i]) && run[i + 1] == Next(n, run[i], steps[i])
  }

  lemma {:induction false} RunKeepsInv(n: nat, run: seq<State>, steps: seq<Step>, k: nat)
    requires Run(n, run, steps) && k < |run|
    ensures Inv(n, run[k])
  {
    if k > 0 {
      RunKeepsInv(n, run, steps, k - 1);
      StepKeepsInv(n, run[k - 1], steps[k - 1]);
    }
  }

  /** In every run the keys the server has read are exactly the first keys requested, in order: each read
      finds the key of the request that sent its number. Nothing is lost: the rest are on their way. */
  lemma ReadsAreRequests(n: nat, run: seq<State>, steps: seq<Step>, k: nat)
    requires Run(n, run, steps) && k < |run|
    ensures var s := run[k];
      && |s.requested| == |s.processed| + |s.completions| + |s.channel|
      && s.processed == s.requested[..|s.processed|]
  {
    RunKeepsInv(n, run, steps, k);
  }

  /** A slot is rewritten only after the reply to the last number of the round its key was sent in: a client
      that has a round's reply has every key of the round read, and never more than N are outstanding. */
  lemma ReplyClosesRound(n: nat, run: seq<State>, steps: seq<Step>, k: nat)
    requires Run(n, run, steps) && k < |run|
    ensures |run[k].requested| - |run[k].processed| <= n
    ensures run[k].awaiting && run[k].reply ==> run[k].processed == run[k].requested
    ensures k < |steps| && steps[k].Deliver? ==> run[k].channel[0].id !in run[k].completions
  {
    RunKeepsInv(n, run, steps, k);
    if k < |steps| && steps[k].Deliver? { Delivering(n, run[k]); }
  }

  /** A key can be sent whenever no reply is awaited, what is on its way can be delivered, what is delivered read, and
      a reply that is there received. */
  lemma GoesOn(n: nat, run: seq<State>, steps: seq<Step>, k: nat)
    requires Run(n, run, steps) && k < |run|
    ensures forall key :: Enabled(n, run[k], Send(key)) <==> !run[k].awaiting
    ensures Enabled(n, run[k], Deliver) <==> run[k].channel != []
    ensures Enabled(n, run[k], Process) <==> run[k].completions != []
    ensures Enabled(n, run[k], Receive) <==> run[k].reply
  {
    RunKeepsInv(n, run, steps, k);
    var s := run[k];
    if s.completions != [] { assert s.completions[0] == IdOf(n, |s.processed|); }
    if s.channel != [] {
      var j := |s.processed| + |s.completions|;
      assert s.channel[0] == Write(IdOf(n, j), s.requested[j]);
    }
  }

  /** A client waiting for a reply is never stuck: something is on its way, to be read, or the reply is there. */
  lemma NeverStuck(n: nat, run: seq<State>, steps: seq<Step>, k: nat) returns (step: Step)
    requires Run(n, run, steps) && k < |run| && run[k].awaiting
    ensures Enabled(n, run[k], step) && !step.Send?
  {
    RunKeepsInv(n, run, steps, k);
    GoesOn(n, run, steps, k);
    step := if run[k].reply then Receive else if run[k].completions != [] then Process else Deliver;
  }
}
