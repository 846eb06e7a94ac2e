/** The object the lock-free stack is meant to be: a bounded stack whose push and pop
    take effect in one step, somewhere between their call and their return. */
module AtomicStack {
  import opened Types

  datatype Call = Push(v: nat) | Pop
  datatype Outcome = PushOk | PushFull | Popped(v: nat) | PopEmpty

  /** Where one thread's operation stands. */
  datatype Status = Idle | Called(call: Call) | Done(outcome: Outcome)

  datatype Spec = Spec(stack: seq<nat>, status: seq<Status>)

  datatype Event =
    | Invoke(t: nat, call: Call)
    | Return(t: nat, outcome: Outcome)
    | Internal(t: nat)

  /** The operation owns a value that is in no one else's hands: a push that has not
      taken effect, or a pop that has and not returned. */
  predicate Carries(st: Status) {
    (st.Called? && st.call.Push?) || (st.Done? && st.outcome.Popped?)
  }

  function Load(st: Status): nat
    requires Carries(st)
  {
    if st.Called? then st.call.v else st.outcome.v
  }

  function Carriers(status: seq<Status>): set<nat> {
    set u | 0 <= u < |status| && Carries(status[u])
  }

  ghost predicate Init(s: Spec) {
    s.stack == [] && forall t :: 0 <= t < |s.status| ==> s.status[t] == Idle
  }

  /** The one atomic effect of an operation. A push may be refused only when the stack and
      the other operations that carry a value account for every node. */
  ghost predicate Effect(capacity: nat, s: Spec, t: nat, s': Spec)
    requires t < |s.status|
  {
    var st := s.status[t];
    st.Called? &&
    match st.call
    case Push(v) =>
      || s' == Spec([v] + s.stack, s.status[t := Done(PushOk)])
      || (&& capacity <= |s.stack| + |Carriers(s.status) - {t}|
          && s' == Spec(s.stack, s.status[t := Done(PushFull)]))
    case Pop =>
      if s.stack == []
      then s' == Spec([], s.status[t := Done(PopEmpty)])
      else s' == Spec(s.stack[1..], s.status[t := Done(Popped(s.stack[0]))])
  }

  ghost predicate Next(capacity: nat, s: Spec, e: Event, s': Spec) {
    && e.t < |s.status|
    && match e
       case Invoke(t, call) => s.status[t] == Idle && s' == s.(status := s.status[t := Called(call)])
       case Return(t, outcome) => s.status[t] == Done(outcome) && s' == s.(status := s.status[t := Idle])
       case Internal(t) => Effect(capacity, s, t, s')
  }

  ghost predicate Run(capacity: nat, states: seq<Spec>, events: seq<Event>) {
    && |states| == |events| + 1
    && Init(states[0])
    && forall i :: 0 <= i < |events| ==> Next(capacity, states[i], events[i], states[i + 1])
  }

  /** What callers see: the calls and returns, in order. */
  function External(events: seq<Event>): seq<Event> {
    if events == [] then []
    else if events[|events| - 1].Internal? then External(events[..|events| - 1])
    else External(events[..|events| - 1]) + [events[|events| - 1]]
  }

  // ---- Users that free only what they were handed ----

  /** The value is on the stack or in the hands of an operation. */
  ghost predicate Inside(s: Spec, v: nat) {
    v in s.stack || exists u :: u in Carriers(s.status) && Load(s.status[u]) == v
  }

  /** A caller pushes only a chunk of the pool that the stack does not already hold. */
  ghost predicate Disciplined(chunks: set<nat>, s: Spec, e: Event) {
    e.Invoke? && e.call.Push? ==> e.call.v in chunks && !Inside(s, e.call.v)
  }

  ghost predicate NoDuplicates(chunks: set<nat>, s: Spec) {
    && Distinct(s.stack)
    && (forall i :: 0 <= i < |s.stack| ==> s.stack[i] in chunks)
    && (forall u :: u in Carriers(s.status) ==> Load(s.status[u]) in chunks && Load(s.status[u]) !in s.stack)
    && (forall u, w :: u in Carriers(s.status) && w in Carriers(s.status) && u != w
          ==> Load(s.status[u]) != Load(s.status[w]))
    && (forall u :: 0 <= u < |s.status| ==> s.status[u] != Done(PushFull))
  }

  /** The loads of a set of carriers with distinct loads, all outside l, fit beside l. */
  lemma {:induction false} LoadsFit(status: seq<Status>, us: set<nat>, l: seq<nat>, chunks: set<nat>)
    requires us <= Carriers(status)
    requires Distinct(l) && forall i :: 0 <= i < |l| ==> l[i] in chunks
    requires forall u :: u in us ==> Load(status[u]) in chunks && Load(status[u]) !in l
    requires forall u, w :: u in us && w in us && u != w ==> Load(status[u]) != Load(status[w])
    ensures |l| + |us| <= |chunks|
    decreases us
  {
    if us == {} {
      DistinctFits(l, chunks);
    } else {
      var u :| u in us;
      LoadsFit(status, us - {u}, l + [Load(status[u])], chunks);
    }
  }

  /** With as many nodes as chunks, a disciplined push is never refused, because the refusal would
      need one chunk more than there are. */
  lemma DisciplinedStep(capacity: nat, chunks: set<nat>, s: Spec, e: Event, s': Spec)
    requires |chunks| <= capacity
    requires NoDuplicates(chunks, s) && Next(capacity, s, e, s') && Disciplined(chunks, s, e)
    ensures NoDuplicates(chunks, s')
  {
    var t := e.t;
    assert forall u :: 0 <= u < |s.status| && u != t ==> s'.status[u] == s.status[u];
    assert forall u :: u in Carriers(s'.status) && u != t ==> u in Carriers(s.status);
    if e.Internal? && s.status[t].call.Push? && s'.status[t] == Done(PushFull) {
      assert t in Carriers(s.status);
      LoadsFit(s.status, Carriers(s.status), s.stack, chunks);
    } else if e.Internal? && s.status[t].call.Push? {
      assert t in Carriers(s.status);
    } else if e.Invoke? && e.call.Push? {
      assert forall u :: u in Carriers(s.status) ==> Load(s.status[u]) != e.call.v;
    }
  }

  /** Over every run of disciplined callers no push is ever refused, so a freed slot is never lost. */
  lemma {:induction false} NeverRefused(capacity: nat, chunks: set<nat>, states: seq<Spec>, events: seq<Event>)
    requires |chunks| <= capacity
    requires Run(capacity, states, events)
    requires forall i :: 0 <= i < |events| ==> Disciplined(chunks, states[i], events[i])
    ensures NoDuplicates(chunks, states[|events|])
    ensures forall i :: 0 <= i < |events| && events[i].Return? ==> events[i].outcome != PushFull
    decreases |events|
  {
    var n := |events|;
    if n == 0 {
      assert Carriers(states[0].status) == {};
    } else {
      NeverRefused(capacity, chunks, states[..n], events[..n - 1]);
      DisciplinedStep(capacity, chunks, states[n - 1], events[n - 1], states[n]);
    }
  }
}
