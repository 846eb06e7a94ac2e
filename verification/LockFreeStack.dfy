/** The lock-free stack: two intrusive lists over one node array, each with a counted top word,
    driven by any number of threads one memory access at a time. */
module LockFreeStack {
  import opened Types
  import opened AtomicStack

  /** An index into the node array, or the null pointer. */
  type Ref = Option<nat>

  datatype Node = Node(value: nat, next: Ref)

  /** A list's top word. aba counts every exchange ever made on the list; the machine keeps it
      modulo 2^64. */
  datatype Top = Top(aba: nat, node: Ref)

  datatype List = Head | Free

  /** Where a thread stands in stack_push or stack_pop, with its locals. */
  datatype Pc =
    | Rest
    | PopLoad(call: Call)
    | PopTest(call: Call, orig: Top)
    | PopCas(call: Call, orig: Top, next: Ref)
    | Access(call: Call, node: nat)
    | PushLoad(result: Outcome, node: nat)
    | PushLink(result: Outcome, node: nat, orig: Top)
    | PushCas(result: Outcome, node: nat, orig: Top)
    | Finish(result: Outcome)

  datatype State = State(nodes: seq<Node>, head: Top, free: Top, pcs: seq<Pc>)

  function TopOf(s: State, l: List): Top {
    if l == Head then s.head else s.free
  }

  function SetTop(s: State, l: List, top: Top): State {
    if l == Head then s.(head := top) else s.(free := top)
  }

  function PopList(call: Call): List {
    if call.Push? then Free else Head
  }

  function PushList(result: Outcome): List {
    if result == PushOk then Head else Free
  }

  function SetPc(s: State, t: nat, pc: Pc): State
    requires t < |s.pcs|
  {
    s.(pcs := s.pcs[t := pc])
  }

  /** The comparison inside compare_exchange: the stored counters agree modulo 2^64. */
  ghost predicate SameWord(a: Top, b: Top) {
    a.aba % WORD == b.aba % WORD && a.node == b.node
  }

  // ---- Steps ----

  /** One iteration's read of orig.node->next, or the early return on an empty list. */
  ghost predicate TestStep(s: State, t: nat, s': State)
    requires t < |s.pcs| && s.pcs[t].PopTest?
  {
    var pc := s.pcs[t];
    match pc.orig.node
    case None => s' == SetPc(s, t, Finish(if pc.call.Push? then PushFull else PopEmpty))
    case Some(n) => n < |s.nodes| && s' == SetPc(s, t, PopCas(pc.call, pc.orig, s.nodes[n].next))
  }

  ghost predicate PopSucceeds(s: State, t: nat, s': State)
    requires t < |s.pcs| && s.pcs[t].PopCas?
  {
    var pc := s.pcs[t];
    var top := TopOf(s, PopList(pc.call));
    && SameWord(top, pc.orig) && pc.orig.node.Some?
    && s' == SetPc(SetTop(s, PopList(pc.call), Top(top.aba + 1, pc.next)), t, Access(pc.call, pc.orig.node.value))
  }

  ghost predicate PushSucceeds(s: State, t: nat, s': State)
    requires t < |s.pcs| && s.pcs[t].PushCas?
  {
    var pc := s.pcs[t];
    var top := TopOf(s, PushList(pc.result));
    && SameWord(top, pc.orig)
    && s' == SetPc(SetTop(s, PushList(pc.result), Top(top.aba + 1, Some(pc.node))), t, Finish(pc.result))
  }

  /** A thread's own step. A weak exchange may fail at any time and reloads the top word. */
  ghost predicate Local(s: State, t: nat, s': State)
    requires t < |s.pcs|
  {
    var pc := s.pcs[t];
    match pc
    case Rest => false
    case PopLoad(call) => s' == SetPc(s, t, PopTest(call, TopOf(s, PopList(call))))
    case PopTest(_, _) => TestStep(s, t, s')
    case PopCas(call, _, _) =>
      PopSucceeds(s, t, s') || s' == SetPc(s, t, PopTest(call, TopOf(s, PopList(call))))
    case Access(call, n) =>
      && n < |s.nodes|
      && if call.Push?
         then s' == SetPc(s.(nodes := s.nodes[n := s.nodes[n].(value := call.v)]), t, PushLoad(PushOk, n))
         else s' == SetPc(s, t, PushLoad(Popped(s.nodes[n].value), n))
    case PushLoad(result, n) => s' == SetPc(s, t, PushLink(result, n, TopOf(s, PushList(result))))
    case PushLink(result, n, orig) =>
      && n < |s.nodes|
      && s' == SetPc(s.(nodes := s.nodes[n := s.nodes[n].(next := orig.node)]), t, PushCas(result, n, orig))
    case PushCas(result, n, _) =>
      PushSucceeds(s, t, s') || s' == SetPc(s, t, PushLink(result, n, TopOf(s, PushList(result))))
    case Finish(_) => false
  }

  ghost predicate Step(s: State, e: Event, s': State) {
    && e.t < |s.pcs|
    && match e
       case Invoke(t, call) => s.pcs[t] == Rest && s' == SetPc(s, t, PopLoad(call))
       case Return(t, outcome) => s.pcs[t] == Finish(outcome) && s' == SetPc(s, t, Rest)
       case Internal(t) => Local(s, t, s')
  }

  /** The thread is not about to exchange a top word that is 2^64 or more exchanges old. */
  ghost predicate RecentAt(s: State, t: nat)
    requires t < |s.pcs|
  {
    s.pcs[t].PopCas? ==> TopOf(s, PopList(s.pcs[t].call)).aba < s.pcs[t].orig.aba + WORD
  }

  /** No thread is. */
  ghost predicate Recent(s: State) {
    forall t: nat :: t < |s.pcs| ==> RecentAt(s, t)
  }

  // ---- The constructor ----

  /** Node i links to node i + 1 and the last one to null. */
  ghost predicate Chained(nodes: seq<Node>) {
    forall i :: 0 <= i < |nodes| ==> nodes[i].next == if i + 1 < |nodes| then Some(i + 1) else None
  }

  ghost predicate InitState(s: State) {
    && |s.nodes| > 0 && Chained(s.nodes)
    && s.head == Top(0, None) && s.free == Top(0, Some(0))
    && forall t :: 0 <= t < |s.pcs| ==> s.pcs[t] == Rest
  }

  /** The constructor's loop over the node buffer. */
  method Construct(nodes: array<Node>)
    requires nodes.Length > 0
    modifies nodes
    ensures Chained(nodes[..])
    ensures forall i :: 0 <= i < nodes.Length ==> nodes[i].value == old(nodes[i].value)
  {
    for i := 0 to nodes.Length - 1
      invariant forall j :: 0 <= j < i ==> nodes[j].next == Some(j + 1)
      invariant forall j :: 0 <= j < nodes.Length ==> nodes[j].value == old(nodes[j].value)
    {
      nodes[i] := nodes[i].(next := Some(i + 1));
    }
    nodes[nodes.Length - 1] := nodes[nodes.Length - 1].(next := None);
  }

  // ---- Lists in memory ----

  function RefAt(l: seq<nat>, i: nat): Ref {
    if i < |l| then Some(l[i]) else None
  }

  /** Following next from r visits exactly l and then null. */
  ghost predicate IsList(nodes: seq<Node>, r: Ref, l: seq<nat>) {
    && r == RefAt(l, 0)
    && (forall i :: 0 <= i < |l| ==> l[i] < |nodes|)
    && (forall i :: 0 <= i < |l| ==> nodes[l[i]].next == RefAt(l, i + 1))
  }

  /** The nodes met by following next from r, at most fuel of them. */
  function Walk(nodes: seq<Node>, r: Ref, fuel: nat): seq<nat>
    decreases fuel
  {
    if fuel == 0 || r.None? || r.value >= |nodes| then []
    else [r.value] + Walk(nodes, nodes[r.value].next, fuel - 1)
  }

  lemma {:induction false} WalkVisits(nodes: seq<Node>, r: Ref, l: seq<nat>, fuel: nat)
    requires IsList(nodes, r, l) && |l| <= fuel
    ensures Walk(nodes, r, fuel) == l
    decreases fuel
  {
    if l != [] {
      var rest := l[1..];
      assert forall i :: 0 <= i <= |rest| ==> RefAt(rest, i) == RefAt(l, i + 1);
      assert forall i :: 0 <= i < |rest| ==> rest[i] == l[i + 1];
      WalkVisits(nodes, nodes[l[0]].next, rest, fuel - 1);
      assert l == [l[0]] + rest;
    }
  }

  function HeadList(s: State): seq<nat> {
    Walk(s.nodes, s.head.node, |s.nodes|)
  }

  function FreeList(s: State): seq<nat> {
    Walk(s.nodes, s.free.node, |s.nodes|)
  }

  /** The node a thread has taken off one list and not yet put on the other. */
  function Hand(pc: Pc): Ref {
    if pc.Access? || pc.PushLoad? || pc.PushLink? || pc.PushCas? then Some(pc.node) else None
  }

  // ---- The invariant ----

  ghost predicate Disjoint(a: seq<nat>, b: seq<nat>) {
    forall i, j :: 0 <= i < |a| && 0 <= j < |b| ==> a[i] != b[j]
  }

  ghost predicate Holds(pcs: seq<Pc>, t: nat, n: nat) {
    t < |pcs| && Hand(pcs[t]) == Some(n)
  }

  ghost predicate Held(pcs: seq<Pc>, n: nat) {
    exists t: nat :: Holds(pcs, t, n)
  }

  /** No node is in two of the head list, the free list and the threads' hands. */
  ghost predicate Apart(size: nat, pcs: seq<Pc>, hl: seq<nat>, fl: seq<nat>) {
    && Distinct(hl) && Distinct(fl) && Disjoint(hl, fl)
    && (forall t: nat, n: nat :: Holds(pcs, t, n) ==> n < size && n !in hl && n !in fl)
    && (forall t: nat, u: nat, n: nat :: Holds(pcs, t, n) && Holds(pcs, u, n) ==> t == u)
  }

  /** Every node is in one of them. */
  ghost predicate Covered(size: nat, pcs: seq<Pc>, hl: seq<nat>, fl: seq<nat>) {
    forall n: nat :: n < size ==> n in hl || n in fl || Held(pcs, n)
  }

  ghost predicate InRange(s: State, r: Ref) {
    r.Some? ==> r.value < |s.nodes|
  }

  /** A loaded top word is no newer than the list, and while it is still the list's top word the
      next pointer read through it is still the top node's. */
  ghost predicate LocalsOk(s: State, pc: Pc) {
    match pc
    case PopTest(call, orig) => orig.aba <= TopOf(s, PopList(call)).aba && InRange(s, orig.node)
    case PopCas(call, orig, next) =>
      && orig.aba <= TopOf(s, PopList(call)).aba
      && orig.node.Some? && InRange(s, orig.node) && InRange(s, next)
      && (TopOf(s, PopList(call)) == orig ==> s.nodes[orig.node.value].next == next)
    case PushLoad(result, _) => result.PushOk? || result.Popped?
    case PushLink(result, _, orig) => (result.PushOk? || result.Popped?) && InRange(s, orig.node)
    case PushCas(result, n, orig) =>
      && (result.PushOk? || result.Popped?)
      && n < |s.nodes| && s.nodes[n].next == orig.node && InRange(s, orig.node)
    case _ => true
  }

  ghost predicate InvOn(s: State, hl: seq<nat>, fl: seq<nat>) {
    && IsList(s.nodes, s.head.node, hl)
    && IsList(s.nodes, s.free.node, fl)
    && Apart(|s.nodes|, s.pcs, hl, fl)
    && Covered(|s.nodes|, s.pcs, hl, fl)
    && (forall n :: 0 <= n < |s.nodes| ==> InRange(s, s.nodes[n].next))
    && (forall t :: 0 <= t < |s.pcs| ==> LocalsOk(s, s.pcs[t]))
  }

  ghost predicate Inv(s: State) {
    InvOn(s, HeadList(s), FreeList(s))
  }

  /** Lists that satisfy the invariant are the ones found by walking memory. */
  lemma InvFromLists(s: State, hl: seq<nat>, fl: seq<nat>)
    requires InvOn(s, hl, fl)
    ensures Inv(s) && HeadList(s) == hl && FreeList(s) == fl
  {
    BelowHolds(|s.nodes|);
    DistinctFits(hl, Below(|s.nodes|));
    DistinctFits(fl, Below(|s.nodes|));
    WalkVisits(s.nodes, s.head.node, hl, |s.nodes|);
    WalkVisits(s.nodes, s.free.node, fl, |s.nodes|);
  }

  function Below(n: nat): set<nat> {
    if n == 0 then {} else Below(n - 1) + {n - 1}
  }

  lemma {:induction false} BelowHolds(n: nat)
    ensures |Below(n)| == n && forall i: nat :: i in Below(n) <==> i < n
  {
    if n > 0 { BelowHolds(n - 1); }
  }

  // ---- The refinement ----

  function StatusOf(s: State, pc: Pc): Status {
    match pc
    case Rest => Idle
    case PopLoad(call) => Called(call)
    case PopTest(call, orig) =>
      if orig.node.Some? then Called(call) else Done(if call.Push? then PushFull else PopEmpty)
    case PopCas(call, _, _) => Called(call)
    case Access(call, n) =>
      if call.Push? || n >= |s.nodes| then Called(call) else Done(Popped(s.nodes[n].value))
    case PushLoad(result, n) => Holding(s, result, n)
    case PushLink(result, n, _) => Holding(s, result, n)
    case PushCas(result, n, _) => Holding(s, result, n)
    case Finish(result) => Done(result)
  }

  function Holding(s: State, result: Outcome, n: nat): Status {
    if result.PushOk? && n < |s.nodes| then Called(Push(s.nodes[n].value)) else Done(result)
  }

  function ValueAt(nodes: seq<Node>, n: nat): nat {
    if n < |nodes| then nodes[n].value else 0
  }

  function Values(nodes: seq<Node>, l: seq<nat>): seq<nat> {
    seq(|l|, i requires 0 <= i < |l| => ValueAt(nodes, l[i]))
  }

  /** The stack the callers see: the values reachable from head, top first. */
  function Abs(s: State): Spec {
    Spec(Values(s.nodes, HeadList(s)), seq(|s.pcs|, t requires 0 <= t < |s.pcs| => StatusOf(s, s.pcs[t])))
  }

  lemma InitHolds(s: State)
    requires InitState(s)
    ensures Inv(s) && AtomicStack.Init(Abs(s)) && HeadList(s) == []
  {
    hide Apart, Covered, Walk;
    var fl := seq(|s.nodes|, i => i);
    InitApart(s.pcs, fl);
    InvFromLists(s, [], fl);
  }

  lemma InitApart(pcs: seq<Pc>, fl: seq<nat>)
    requires forall t :: 0 <= t < |pcs| ==> pcs[t] == Rest
    requires forall i :: 0 <= i < |fl| ==> fl[i] == i
    ensures Apart(|fl|, pcs, [], fl) && Covered(|fl|, pcs, [], fl)
  {
    forall n: nat | n < |fl| ensures n in fl { assert fl[n] == n; }
  }

  /** The same hands hold the same nodes. */
  lemma SameHands(size: nat, pcs: seq<Pc>, pcs': seq<Pc>, hl: seq<nat>, fl: seq<nat>)
    requires |pcs| == |pcs'| && forall u :: 0 <= u < |pcs| ==> Hand(pcs'[u]) == Hand(pcs[u])
    requires Apart(size, pcs, hl, fl) && Covered(size, pcs, hl, fl)
    ensures Apart(size, pcs', hl, fl) && Covered(size, pcs', hl, fl)
  {
    assert forall t: nat, n: nat :: Holds(pcs', t, n) <==> Holds(pcs, t, n);
  }

  /** A step that changes neither a top word nor a link keeps both lists. */
  lemma QuietStep(s: State, t: nat, s': State)
    requires Inv(s) && t < |s.pcs|
    requires s'.head == s.head && s'.free == s.free && |s'.nodes| == |s.nodes|
    requires forall n :: 0 <= n < |s.nodes| ==> s'.nodes[n].next == s.nodes[n].next
    requires |s'.pcs| == |s.pcs| && forall u :: 0 <= u < |s.pcs| && u != t ==> s'.pcs[u] == s.pcs[u]
    requires Hand(s'.pcs[t]) == Hand(s.pcs[t])
    requires LocalsOk(s', s'.pcs[t])
    ensures Inv(s') && HeadList(s') == HeadList(s) && FreeList(s') == FreeList(s)
  {
    SameHands(|s.nodes|, s.pcs, s'.pcs, HeadList(s), FreeList(s));
    forall u | 0 <= u < |s.pcs| ensures LocalsOk(s', s'.pcs[u]) {
      assert LocalsOk(s, s.pcs[u]);
    }
    InvFromLists(s', HeadList(s), FreeList(s));
  }

  /** Writing the next pointer of a node in one's hand disturbs no list and no loaded pointer. */
  lemma LinkStep(s: State, t: nat, s': State)
    requires Inv(s) && t < |s.pcs| && s.pcs[t].PushLink?
    requires Local(s, t, s')
    ensures Inv(s') && HeadList(s') == HeadList(s) && FreeList(s') == FreeList(s)
  {
    hide HeadList, FreeList, Disjoint, Distinct, Covered;
    var n := s.pcs[t].node;
    var hl, fl := HeadList(s), FreeList(s);
    assert Holds(s.pcs, t, n);
    SameHands(|s.nodes|, s.pcs, s'.pcs, hl, fl);
    forall u | 0 <= u < |s.pcs| ensures LocalsOk(s', s'.pcs[u]) {
      assert LocalsOk(s, s.pcs[u]);
      if u != t && s.pcs[u].PushCas? { assert Holds(s.pcs, u, s.pcs[u].node); }
    }
    InvFromLists(s', hl, fl);
  }

  /** Taking the top node into one's hand keeps every node in one place. */
  lemma TakeTop(size: nat, pcs: seq<Pc>, t: nat, pc: Pc, a: seq<nat>, b: seq<nat>)
    requires t < |pcs| && Hand(pcs[t]).None? && a != [] && a[0] < size && Hand(pc) == Some(a[0])
    requires Apart(size, pcs, a, b) && Covered(size, pcs, a, b)
    ensures Apart(size, pcs[t := pc], a[1..], b) && Covered(size, pcs[t := pc], a[1..], b)
  {
    var pcs' := pcs[t := pc];
    assert forall u: nat, n: nat :: Holds(pcs', u, n) <==> if u == t then n == a[0] else Holds(pcs, u, n);
    forall n: nat | n < size ensures n in a[1..] || n in b || Held(pcs', n) {
      if n == a[0] {
        assert Holds(pcs', t, n);
      } else if n !in a && n !in b {
        var u: nat :| Holds(pcs, u, n);
        assert Holds(pcs', u, n);
      }
    }
  }

  /** Putting the node in one's hand on top of a list keeps every node in one place. */
  lemma PutTop(size: nat, pcs: seq<Pc>, t: nat, pc: Pc, n: nat, a: seq<nat>, b: seq<nat>)
    requires Holds(pcs, t, n) && Hand(pc).None?
    requires Apart(size, pcs, a, b) && Covered(size, pcs, a, b)
    ensures Apart(size, pcs[t := pc], [n] + a, b) && Covered(size, pcs[t := pc], [n] + a, b)
  {
    var pcs' := pcs[t := pc];
    assert forall u: nat, m: nat :: Holds(pcs', u, m) <==> u != t && Holds(pcs, u, m);
    forall m: nat | m < size ensures m in [n] + a || m in b || Held(pcs', m) {
      if m != n && m !in a && m !in b {
        var u: nat :| Holds(pcs, u, m);
        assert Holds(pcs', u, m);
      }
    }
  }

  lemma Swapped(size: nat, pcs: seq<Pc>, a: seq<nat>, b: seq<nat>)
    requires Apart(size, pcs, a, b) && Covered(size, pcs, a, b)
    ensures Apart(size, pcs, b, a) && Covered(size, pcs, b, a)
  {
  }

  lemma Tail(nodes: seq<Node>, r: Ref, l: seq<nat>)
    requires IsList(nodes, r, l) && l != []
    ensures IsList(nodes, nodes[l[0]].next, l[1..])
  {
    var rest := l[1..];
    assert forall i :: 0 <= i <= |rest| ==> RefAt(rest, i) == RefAt(l, i + 1);
    assert forall i :: 0 <= i < |rest| ==> rest[i] == l[i + 1];
  }

  lemma Grown(nodes: seq<Node>, r: Ref, l: seq<nat>, n: nat)
    requires IsList(nodes, r, l) && n < |nodes| && nodes[n].next == r
    ensures IsList(nodes, Some(n), [n] + l)
  {
    var more := [n] + l;
    forall i | 0 <= i < |more| ensures more[i] < |nodes| && nodes[more[i]].next == RefAt(more, i + 1) {
      assert RefAt(more, i + 1) == RefAt(l, i);
      if i > 0 { assert more[i] == l[i - 1]; }
    }
  }

  /** An exchange makes every other loaded copy of that top word out of date. */
  lemma LocalsAfterExchange(s: State, t: nat, s': State, l: List)
    requires Inv(s) && t < |s.pcs| && s'.nodes == s.nodes
    requires |s'.pcs| == |s.pcs| && forall u :: 0 <= u < |s.pcs| && u != t ==> s'.pcs[u] == s.pcs[u]
    requires TopOf(s', l).aba == TopOf(s, l).aba + 1
    requires forall m :: m != l ==> TopOf(s', m) == TopOf(s, m)
    requires LocalsOk(s', s'.pcs[t])
    ensures forall u :: 0 <= u < |s.pcs| ==> LocalsOk(s', s'.pcs[u])
  {
    forall u | 0 <= u < |s.pcs| ensures LocalsOk(s', s'.pcs[u]) {
      assert LocalsOk(s, s.pcs[u]);
    }
  }

  /** The loaded word that compares equal is the current one: fewer than 2^64 exchanges apart,
      equal modulo 2^64. */
  lemma SameWordIsSame(a: Top, b: Top)
    requires SameWord(a, b) && b.aba <= a.aba < b.aba + WORD
    ensures a == b
  {
    assert a.aba / WORD <= b.aba / WORD + 1;
    assert a.aba == a.aba / WORD * WORD + a.aba % WORD;
    assert b.aba == b.aba / WORD * WORD + b.aba % WORD;
  }

  /** ABA safety: when a pop's exchange succeeds, the next pointer it read earlier is still the
      top node's, and exactly the top node comes off its list into the thread's hand. */
  lemma PopStep(s: State, t: nat, s': State)
    requires Inv(s) && t < |s.pcs| && s.pcs[t].PopCas? && RecentAt(s, t)
    requires PopSucceeds(s, t, s')
    ensures Inv(s')
    ensures s.nodes == s'.nodes
    ensures var pc := s.pcs[t];
      && TopOf(s, PopList(pc.call)).node == pc.orig.node
      && pc.orig.node.value < |s.nodes| && s.nodes[pc.orig.node.value].next == pc.next
    ensures var l, n := PopList(s.pcs[t].call), s.pcs[t].orig.node.value;
      && Hand(s'.pcs[t]) == Some(n)
      && (if l == Head then HeadList(s) == [n] + HeadList(s') && FreeList(s') == FreeList(s)
          else FreeList(s) == [n] + FreeList(s') && HeadList(s') == HeadList(s))
  {
    var pc := s.pcs[t];
    var l, hl, fl := PopList(pc.call), HeadList(s), FreeList(s);
    assert LocalsOk(s, pc);
    SameWordIsSame(TopOf(s, l), pc.orig);
    LocalsAfterExchange(s, t, s', l);
    if l == Head {
      Tail(s.nodes, s.head.node, hl);
      TakeTop(|s.nodes|, s.pcs, t, s'.pcs[t], hl, fl);
      InvFromLists(s', hl[1..], fl);
    } else {
      Tail(s.nodes, s.free.node, fl);
      Swapped(|s.nodes|, s.pcs, hl, fl);
      TakeTop(|s.nodes|, s.pcs, t, s'.pcs[t], fl, hl);
      Swapped(|s.nodes|, s'.pcs, fl[1..], hl);
      InvFromLists(s', hl, fl[1..]);
    }
  }

  /** A push's exchange puts exactly the node in hand on top of its list. */
  lemma PushStep(s: State, t: nat, s': State)
    requires Inv(s) && t < |s.pcs| && s.pcs[t].PushCas?
    requires PushSucceeds(s, t, s')
    ensures Inv(s')
    ensures s.nodes == s'.nodes
    ensures var l, n := PushList(s.pcs[t].result), s.pcs[t].node;
      if l == Head then HeadList(s') == [n] + HeadList(s) && FreeList(s') == FreeList(s)
      else FreeList(s') == [n] + FreeList(s) && HeadList(s') == HeadList(s)
  {
    var pc := s.pcs[t];
    var l, hl, fl, n := PushList(pc.result), HeadList(s), FreeList(s), pc.node;
    assert LocalsOk(s, pc);
    assert Holds(s.pcs, t, n);
    LocalsAfterExchange(s, t, s', l);
    if l == Head {
      Grown(s.nodes, s.head.node, hl, n);
      PutTop(|s.nodes|, s.pcs, t, s'.pcs[t], n, hl, fl);
      InvFromLists(s', [n] + hl, fl);
    } else {
      Grown(s.nodes, s.free.node, fl, n);
      Swapped(|s.nodes|, s.pcs, hl, fl);
      PutTop(|s.nodes|, s.pcs, t, s'.pcs[t], n, fl, hl);
      Swapped(|s.nodes|, s'.pcs, [n] + fl, hl);
      InvFromLists(s', hl, [n] + fl);
    }
  }

  /** Every step of every thread keeps the invariant. */
  lemma StepKeepsInv(s: State, e: Event, s': State)
    requires Inv(s) && Step(s, e, s') && RecentAt(s, e.t)
    ensures Inv(s')
  {
    var pc := s.pcs[e.t];
    assert LocalsOk(s, pc);
    if pc.PopCas? && PopSucceeds(s, e.t, s') {
      PopStep(s, e.t, s');
    } else if pc.PushCas? && PushSucceeds(s, e.t, s') {
      PushStep(s, e.t, s');
    } else if pc.PushLink? {
      LinkStep(s, e.t, s');
    } else {
      QuietStep(s, e.t, s');
    }
  }

  // ---- Linearizability ----

  /** Only the stepping thread's status changes, and the stack not at all, when the head list and
      the values on it stay. */
  lemma AbsFrame(s: State, t: nat, s': State)
    requires Inv(s) && Inv(s') && t < |s.pcs| && HeadList(s') == HeadList(s) && |s'.nodes| == |s.nodes|
    requires |s'.pcs| == |s.pcs| && forall u :: 0 <= u < |s.pcs| && u != t ==> s'.pcs[u] == s.pcs[u]
    requires forall n :: 0 <= n < |s.nodes| && Some(n) != Hand(s.pcs[t]) ==> s'.nodes[n].value == s.nodes[n].value
    ensures Abs(s').stack == Abs(s).stack
    ensures Abs(s').status == Abs(s).status[t := StatusOf(s', s'.pcs[t])]
  {
    var hl := HeadList(s);
    forall i | 0 <= i < |hl| ensures ValueAt(s'.nodes, hl[i]) == ValueAt(s.nodes, hl[i]) {
      if Hand(s.pcs[t]).Some? { assert Holds(s.pcs, t, Hand(s.pcs[t]).value); }
    }
    forall u | 0 <= u < |s.pcs| && u != t ensures StatusOf(s', s'.pcs[u]) == StatusOf(s, s.pcs[u]) {
      if Hand(s.pcs[u]).Some? { assert Holds(s.pcs, u, Hand(s.pcs[u]).value); }
      if Hand(s.pcs[t]).Some? { assert Holds(s.pcs, t, Hand(s.pcs[t]).value); }
    }
  }

  lemma {:induction false} Accounted(pcs: seq<Pc>, ns: set<nat>, l: seq<nat>, us: set<nat>)
    requires forall n :: n in ns ==> n in l || exists u :: u in us && Holds(pcs, u, n)
    ensures |ns| <= |l| + |us|
    decreases |l|, us
  {
    if us != {} {
      var u :| u in us;
      if u < |pcs| && Hand(pcs[u]).Some? {
        Accounted(pcs, ns - {Hand(pcs[u]).value}, l, us - {u});
      } else {
        Accounted(pcs, ns, l, us - {u});
      }
    } else if l != [] {
      Accounted(pcs, ns - {l[0]}, l[1..], us);
    } else {
      assert ns == {};
    }
  }

  /** With the free list empty, a node not on the stack is in the hand of an operation that carries a value. */
  lemma CarrierOf(s: State, t: nat, n: nat) returns (u: nat)
    requires Inv(s) && t < |s.pcs| && Hand(s.pcs[t]).None? && s.free.node.None? && n < |s.nodes| && n !in HeadList(s)
    ensures Holds(s.pcs, u, n) && u in Carriers(Abs(s).status) - {t}
  {
    assert n !in FreeList(s);
    hide Apart, Walk;
    u :| Holds(s.pcs, u, n);
    assert LocalsOk(s, s.pcs[u]);
  }

  /** When the free list is empty, the stack and the values in other threads' hands use up every node. */
  lemma OutOfNodes(s: State, t: nat)
    requires Inv(s) && t < |s.pcs| && Hand(s.pcs[t]).None? && s.free.node.None?
    ensures |s.nodes| <= |Abs(s).stack| + |Carriers(Abs(s).status) - {t}|
  {
    hide Inv, Walk;
    var us := Carriers(Abs(s).status) - {t};
    BelowHolds(|s.nodes|);
    forall n | n in Below(|s.nodes|) && n !in HeadList(s) ensures exists u :: u in us && Holds(s.pcs, u, n) {
      var u := CarrierOf(s, t, n);
    }
    Accounted(s.pcs, Below(|s.nodes|), HeadList(s), us);
  }

  /** The call has not taken effect before this step and has after it. */
  ghost predicate Takes(s: State, t: nat, s': State) {
    AtomicStack.Next(|s.nodes|, Abs(s), Internal(t), Abs(s'))
  }

  /** Reading a null top word is where an operation finds its list empty and takes effect: a pop reports an empty
      stack, a push a full one. Reading any other word is unseen. */
  lemma LoadRefines(s: State, t: nat, s': State)
    requires Inv(s) && t < |s.pcs| && (s.pcs[t].PopLoad? || s.pcs[t].PopCas?)
    requires s' == SetPc(s, t, PopTest(s.pcs[t].call, TopOf(s, PopList(s.pcs[t].call))))
    ensures Inv(s')
    ensures var call := s.pcs[t].call;
      if TopOf(s, PopList(call)).node.Some? then Abs(s') == Abs(s)
      else Takes(s, t, s') && Abs(s').status[t] == Done(if call.Push? then PushFull else PopEmpty)
  {
    assert LocalsOk(s, s.pcs[t]);
    QuietStep(s, t, s');
    AbsFrame(s, t, s');
    if s'.pcs[t].orig.node.Some? {
      assert Abs(s').status == Abs(s).status;
    } else if s.pcs[t].call.Push? {
      OutOfNodes(s, t);
    } else {
      assert HeadList(s) == [];
    }
  }

  /** An exchange moves no value, so only the exchanging thread's status can change. */
  lemma ExchangeStatus(s: State, t: nat, s': State, n: nat)
    requires t < |s.pcs| && s'.nodes == s.nodes
    requires |s'.pcs| == |s.pcs| && forall u :: 0 <= u < |s.pcs| && u != t ==> s'.pcs[u] == s.pcs[u]
    ensures Abs(s').status == Abs(s).status[t := StatusOf(s', s'.pcs[t])]
    ensures HeadList(s') == HeadList(s) ==> Abs(s').stack == Abs(s).stack
    ensures HeadList(s') == [n] + HeadList(s) ==> Abs(s').stack == [ValueAt(s.nodes, n)] + Abs(s).stack
    ensures HeadList(s) == [n] + HeadList(s') ==> Abs(s).stack == [ValueAt(s.nodes, n)] + Abs(s').stack
  {
    forall u | 0 <= u < |s.pcs| && u != t ensures StatusOf(s', s'.pcs[u]) == StatusOf(s, s.pcs[u]) { }
  }

  /** A stack_pop takes effect at its exchange on head, with the top value of the stack; a stack_push's exchange on
      the free list is unseen. */
  lemma PopRefines(s: State, t: nat, s': State)
    requires Inv(s) && t < |s.pcs| && s.pcs[t].PopCas? && RecentAt(s, t)
    requires PopSucceeds(s, t, s')
    ensures Inv(s')
    ensures if s.pcs[t].call.Push? then Abs(s') == Abs(s)
            else Takes(s, t, s') && Abs(s).stack != [] && Abs(s').status[t] == Done(Popped(Abs(s).stack[0]))
  {
    PopStep(s, t, s');
    var n := s.pcs[t].orig.node.value;
    ExchangeStatus(s, t, s', n);
    if s.pcs[t].call.Push? {
      assert Abs(s').status == Abs(s).status;
    } else {
      assert Abs(s).stack == [s.nodes[n].value] + Abs(s').stack;
      assert Abs(s').stack == Abs(s).stack[1..];
    }
  }

  lemma PushTakes(capacity: nat, a: Spec, t: nat, v: nat, a': Spec)
    requires t < |a.status| && a.status[t] == Called(Push(v)) && a' == Spec([v] + a.stack, a.status[t := Done(PushOk)])
    ensures AtomicStack.Next(capacity, a, Internal(t), a')
  {
  }

  /** A stack_push takes effect at its exchange on head; a stack_pop's exchange on the free list is unseen. */
  lemma PushRefines(s: State, t: nat, s': State)
    requires Inv(s) && t < |s.pcs| && s.pcs[t].PushCas?
    requires PushSucceeds(s, t, s')
    ensures Inv(s')
    ensures if s.pcs[t].result.PushOk? then Takes(s, t, s') && Abs(s').status[t] == Done(PushOk) else Abs(s') == Abs(s)
  {
    var n := s.pcs[t].node;
    assert n < |s.nodes| && (s.pcs[t].result.PushOk? || s.pcs[t].result.Popped?) by {
      assert LocalsOk(s, s.pcs[t]);
    }
    hide Inv, InvOn, HeadList, FreeList, LocalsOk, Walk, Carriers, AtomicStack.Next;
    PushStep(s, t, s');
    ExchangeStatus(s, t, s', n);
    if s.pcs[t].result.PushOk? {
      assert Abs(s').status == Abs(s).status[t := Done(PushOk)];
      PushTakes(|s.nodes|, Abs(s), t, s.nodes[n].value, Abs(s'));
    } else {
      assert Abs(s').status == Abs(s).status;
    }
  }

  /** Every other internal step is unseen by callers. */
  lemma UnseenStep(s: State, t: nat, s': State)
    requires Inv(s) && t < |s.pcs| && Local(s, t, s')
    requires var pc := s.pcs[t];
      || pc.PopTest? || pc.Access? || pc.PushLoad? || pc.PushLink?
      || (pc.PushCas? && !PushSucceeds(s, t, s'))
    ensures Inv(s') && Abs(s') == Abs(s)
  {
    assert LocalsOk(s, s.pcs[t]);
    if s.pcs[t].PushLink? {
      LinkStep(s, t, s');
    } else {
      QuietStep(s, t, s');
    }
    if Hand(s.pcs[t]).Some? { assert Holds(s.pcs, t, Hand(s.pcs[t]).value); }
    AbsFrame(s, t, s');
    assert Abs(s').status == Abs(s).status;
  }

  /** Linearizability, one step: calls and returns are the atomic stack's, with the same results,
      and an internal step is either unseen or the atomic effect of that thread's operation. */
  lemma StepRefines(s: State, e: Event, s': State)
    requires Inv(s) && Step(s, e, s') && RecentAt(s, e.t)
    ensures Inv(s') && |s'.nodes| == |s.nodes| && |s'.pcs| == |s.pcs|
    ensures AtomicStack.Next(|s.nodes|, Abs(s), e, Abs(s')) || (e.Internal? && Abs(s') == Abs(s))
  {
    var t, pc := e.t, s.pcs[e.t];
    if e.Internal? {
      if pc.PopCas? && PopSucceeds(s, t, s') {
        PopRefines(s, t, s');
      } else if pc.PopLoad? || pc.PopCas? {
        LoadRefines(s, t, s');
      } else if pc.PushCas? && PushSucceeds(s, t, s') {
        PushRefines(s, t, s');
      } else {
        UnseenStep(s, t, s');
      }
    } else {
      QuietStep(s, t, s');
      AbsFrame(s, t, s');
    }
  }

  ghost predicate Run(states: seq<State>, events: seq<Event>) {
    && |states| == |events| + 1
    && InitState(states[0])
    && (forall i :: 0 <= i < |states| ==> Recent(states[i]))
    && (forall i :: 0 <= i < |events| ==> Step(states[i], events[i], states[i + 1]))
  }

  lemma ExtendRun(capacity: nat, specs: seq<Spec>, effects: seq<Event>, e: Event, last: Spec)
    requires AtomicStack.Run(capacity, specs, effects)
    requires AtomicStack.Next(capacity, specs[|effects|], e, last)
    ensures AtomicStack.Run(capacity, specs + [last], effects + [e])
    ensures External(effects + [e]) == if e.Internal? then External(effects) else External(effects) + [e]
  {
    assert (effects + [e])[..|effects|] == effects;
  }

  /** Linearizability: whatever calls and returns a run shows, the atomic stack can show in the
      same order, ending with the values reachable from head. */
  lemma {:induction false} Linearizable(states: seq<State>, events: seq<Event>)
    returns (specs: seq<Spec>, effects: seq<Event>)
    requires Run(states, events)
    ensures AtomicStack.Run(|states[0].nodes|, specs, effects)
    ensures External(effects) == External(events)
    ensures Inv(states[|events|]) && specs[|effects|] == Abs(states[|events|])
    ensures |states[|events|].nodes| == |states[0].nodes|
    decreases |events|
  {
    var n := |events|;
    if n == 0 {
      InitHolds(states[0]);
      specs, effects := [Abs(states[0])], [];
    } else {
      var s, e, s' := states[n - 1], events[n - 1], states[n];
      specs, effects := Linearizable(states[..n], events[..n - 1]);
      StepRefines(s, e, s');
      if AtomicStack.Next(|s.nodes|, Abs(s), e, Abs(s')) {
        ExtendRun(|s.nodes|, specs, effects, e, Abs(s'));
        specs, effects := specs + [Abs(s')], effects + [e];
      }
    }
  }

  lemma KeptStep(chunks: set<nat>, s: State, e: Event, s': State)
    requires Inv(s) && Recent(s) && Step(s, e, s') && |chunks| <= |s.nodes|
    requires NoDuplicates(chunks, Abs(s)) && Disciplined(chunks, Abs(s), e)
    ensures Inv(s') && |s'.nodes| == |s.nodes| && NoDuplicates(chunks, Abs(s'))
    ensures e.Return? ==> e.outcome != PushFull
  {
    StepRefines(s, e, s');
    if AtomicStack.Next(|s.nodes|, Abs(s), e, Abs(s')) {
      DisciplinedStep(|s.nodes|, chunks, Abs(s), e, Abs(s'));
    }
  }

  lemma KeptInit(chunks: set<nat>, s: State)
    requires InitState(s)
    ensures Inv(s) && NoDuplicates(chunks, Abs(s))
  {
    InitHolds(s);
    assert Carriers(Abs(s).status) == {};
  }

  /** A freed slot is never dropped: over every run whose callers push only chunks the stack does not
      hold, with a node per chunk, stack_push never reports failure. k counts the steps taken. */
  lemma {:induction false} FreedSlotKept(chunks: set<nat>, states: seq<State>, events: seq<Event>, k: nat)
    requires Run(states, events) && |chunks| <= |states[0].nodes| && k <= |events|
    requires forall i :: 0 <= i < |events| ==> Disciplined(chunks, Abs(states[i]), events[i])
    ensures Inv(states[k]) && |states[k].nodes| == |states[0].nodes|
    ensures NoDuplicates(chunks, Abs(states[k]))
    ensures forall i :: 0 <= i < k && events[i].Return? ==> events[i].outcome != PushFull
  {
    hide Inv, Step, Recent, NoDuplicates, Disciplined, InitState;
    if k == 0 {
      KeptInit(chunks, states[0]);
    } else {
      FreedSlotKept(chunks, states, events, k - 1);
      KeptStep(chunks, states[k - 1], events[k - 1], states[k]);
    }
  }

  // ---- Progress ----

  /** The loaded word is still the list's. */
  predicate Current(s: State, pc: Pc) {
    match pc
    case PopTest(call, orig) => orig == TopOf(s, PopList(call))
    case PopCas(call, orig, _) => orig == TopOf(s, PopList(call))
    case PushLink(result, _, orig) => orig == TopOf(s, PushList(result))
    case PushCas(result, _, orig) => orig == TopOf(s, PushList(result))
    case _ => true
  }

  /** A pop's loaded word is fewer than 2^64 exchanges old. */
  ghost predicate Young(s: State, pc: Pc) {
    pc.PopTest? || pc.PopCas? ==> TopOf(s, PopList(pc.call)).aba < pc.orig.aba + WORD
  }

  /** The steps a thread has to go if no other thread moves and no exchange fails without a reason. */
  function Left(s: State, pc: Pc): (n: nat)
    ensures n <= 8
  {
    match pc
    case PopLoad(_) => 7
    case PopTest(_, _) => if Current(s, pc) then 6 else 8
    case PopCas(_, _, _) => if Current(s, pc) then 5 else 7
    case Access(_, _) => 4
    case PushLoad(_, _) => 3
    case PushLink(_, _, _) => if Current(s, pc) then 2 else 4
    case PushCas(_, _, _) => if Current(s, pc) then 1 else 3
    case _ => 0
  }

  /** A thread in an operation always has a step that brings it nearer to the end. */
  lemma CanStep(s: State, t: nat) returns (s': State)
    requires Inv(s) && t < |s.pcs| && !s.pcs[t].Rest? && !s.pcs[t].Finish? && Young(s, s.pcs[t])
    ensures Step(s, Internal(t), s') && RecentAt(s, t)
    ensures |s'.pcs| == |s.pcs| && !s'.pcs[t].Rest? && Left(s', s'.pcs[t]) < Left(s, s.pcs[t]) && Young(s', s'.pcs[t])
  {
    var pc := s.pcs[t];
    assert LocalsOk(s, pc);
    if Hand(pc).Some? { assert Holds(s.pcs, t, pc.node); }
    hide InvOn, HeadList, FreeList;
    match pc
    case PopLoad(call) => s' := SetPc(s, t, PopTest(call, TopOf(s, PopList(call))));
    case PopTest(call, orig) =>
      s' := SetPc(s, t, if orig.node.None? then Finish(if call.Push? then PushFull else PopEmpty)
                        else PopCas(call, orig, s.nodes[orig.node.value].next));
    case PopCas(call, orig, next) =>
      var top := TopOf(s, PopList(call));
      s' := if top == orig
            then SetPc(SetTop(s, PopList(call), Top(top.aba + 1, next)), t, Access(call, orig.node.value))
            else SetPc(s, t, PopTest(call, top));
    case Access(call, n) =>
      s' := if call.Push?
            then SetPc(s.(nodes := s.nodes[n := s.nodes[n].(value := call.v)]), t, PushLoad(PushOk, n))
            else SetPc(s, t, PushLoad(Popped(s.nodes[n].value), n));
    case PushLoad(result, n) => s' := SetPc(s, t, PushLink(result, n, TopOf(s, PushList(result))));
    case PushLink(result, n, orig) =>
      s' := SetPc(s.(nodes := s.nodes[n := s.nodes[n].(next := orig.node)]), t, PushCas(result, n, orig));
    case PushCas(result, n, orig) =>
      var top := TopOf(s, PushList(result));
      s' := if top == orig then SetPc(SetTop(s, PushList(result), Top(top.aba + 1, Some(n))), t, Finish(result))
            else SetPc(s, t, PushLink(result, n, top));
  }

  /** The events are one after another the steps of thread t. */
  ghost predicate Alone(run: seq<State>, events: seq<Event>, t: nat) {
    && |run| == |events| + 1
    && forall i :: 0 <= i < |events| ==> events[i].t == t && Step(run[i], events[i], run[i + 1])
  }

  lemma AloneMore(s: State, e: Event, run: seq<State>, events: seq<Event>, t: nat)
    requires Alone(run, events, t) && e.t == t && Step(s, e, run[0])
    ensures Alone([s] + run, [e] + events, t)
  {
    hide Step;
    var more, es := [s] + run, [e] + events;
    forall i | 0 <= i < |es| ensures es[i].t == t && Step(more[i], es[i], more[i + 1]) {
      if i > 0 { assert Step(run[i - 1], events[i - 1], run[i]); }
    }
  }

  /** From any point of an operation at most 8 steps of the thread alone lead to its end, and its atomic effect
      happens on the way, unless it has before. */
  lemma {:induction false} FinishesAlone(s: State, t: nat) returns (run: seq<State>, events: seq<Event>)
    requires Inv(s) && t < |s.pcs| && !s.pcs[t].Rest? && Young(s, s.pcs[t])
    ensures Alone(run, events, t) && run[0] == s && |events| <= Left(s, s.pcs[t])
    ensures forall i :: 0 <= i < |events| ==> events[i] == Internal(t)
    ensures var last := run[|events|];
      && Inv(last) && |last.pcs| == |s.pcs| && last.pcs[t].Finish?
      && if Abs(s).status[t].Done? then Abs(last) == Abs(s) else Effect(|s.nodes|, Abs(s), t, Abs(last))
    decreases Left(s, s.pcs[t])
  {
    hide Inv, Step, Local, Young, RecentAt, Walk, Carriers;
    if s.pcs[t].Finish? {
      run, events := [s], [];
    } else {
      var s' := CanStep(s, t);
      StepRefines(s, Internal(t), s');
      run, events := FinishesAlone(s', t);
      AloneMore(s, Internal(t), run, events, t);
      run, events := [s] + run, [Internal(t)] + events;
    }
  }

  /** Run alone in any state of any run, a call returns after at most 9 steps, and does what it does on the atomic
      stack: a pop returns the top, and a push is refused only when the nodes are used up. */
  lemma CompletesAlone(s: State, t: nat, call: Call) returns (run: seq<State>, events: seq<Event>, outcome: Outcome)
    requires Inv(s) && t < |s.pcs| && s.pcs[t].Rest?
    ensures Alone(run, events, t) && run[0] == s && 2 <= |events| <= 9
    ensures events[0] == Invoke(t, call) && events[|events| - 1] == Return(t, outcome)
    ensures var a, a' := Abs(s), Abs(run[|events|]);
      && a'.status == a.status
      && (call.Pop? ==>
            if a.stack == [] then outcome == PopEmpty && a'.stack == []
            else outcome == Popped(a.stack[0]) && a'.stack == a.stack[1..])
      && (call.Push? && |a.stack| + |Carriers(a.status)| < |s.nodes| ==>
            outcome == PushOk && a'.stack == [call.v] + a.stack)
      && (call.Push? && outcome != PushOk ==> outcome == PushFull && a'.stack == a.stack)
  {
    hide Inv, Local, Walk, Carriers;
    var s1 := SetPc(s, t, PopLoad(call));
    StepRefines(s, Invoke(t, call), s1);
    run, events := FinishesAlone(s1, t);
    var end := run[|events|];
    outcome := end.pcs[t].result;
    var s2 := SetPc(end, t, Rest);
    StepRefines(end, Return(t, outcome), s2);
    Appended(run, events, t, Return(t, outcome), s2);
    AloneMore(s, Invoke(t, call), run + [s2], events + [Return(t, outcome)], t);
    run, events := [s] + (run + [s2]), [Invoke(t, call)] + (events + [Return(t, outcome)]);
    SameCarriers(Abs(s).status, t, call);
    assert Abs(s2).status == Abs(s).status;
  }

  lemma Appended(run: seq<State>, events: seq<Event>, t: nat, e: Event, s': State)
    requires Alone(run, events, t) && e.t == t && Step(run[|events|], e, s')
    ensures Alone(run + [s'], events + [e], t)
  {
    hide Step;
  }

  lemma SameCarriers(status: seq<Status>, t: nat, call: Call)
    requires t < |status| && status[t] == Idle
    ensures Carriers(status[t := Called(call)]) - {t} == Carriers(status)
  {
  }

  /** Thread 0 read the third push's word and node 2's next pointer, node 1; after 2^64 more exchanges node 2 is
      alone on the stack and nodes 0 and 1 are free. */
  function Wrapped(): State {
    State([Node(7, Some(1)), Node(8, None), Node(9, None)], Top(WORD + 3, Some(2)), Top(WORD + 3, Some(0)),
          [PopCas(Pop, Top(3, Some(2)), Some(1)), Rest, Rest, Rest])
  }

  /** Its exchange then puts node 1 on both lists. */
  function Torn(): State {
    SetPc(SetTop(Wrapped(), Head, Top(WORD + 4, Some(1))), 0, Access(Pop, 2))
  }

  lemma WrappedHolds()
    ensures Inv(Wrapped())
  {
    hide Apart, Covered, Walk;
    WrappedApart(Wrapped().pcs);
    InvFromLists(Wrapped(), [2], [0, 1]);
  }

  lemma WrappedApart(pcs: seq<Pc>)
    requires forall t :: 0 <= t < |pcs| ==> Hand(pcs[t]).None?
    ensures Apart(3, pcs, [2], [0, 1]) && Covered(3, pcs, [2], [0, 1])
  {
  }

  lemma TornFails()
    ensures !Inv(Torn())
  {
    hide InvOn;
    var s := Torn();
    WalkVisits(s.nodes, Some(1), [1], 3);
    WalkVisits(s.nodes, Some(0), [0, 1], 3);
    assert HeadList(s) == [1] && FreeList(s) == [0, 1];
    SharedNode(s, [1], [0, 1]);
  }

  lemma SharedNode(s: State, hl: seq<nat>, fl: seq<nat>)
    requires hl != [] && hl[0] in fl
    ensures !InvOn(s, hl, fl)
  {
  }

  /** The exchange that compares a wrapped counter cannot tell words exactly 2^64 exchanges apart, so Recent is
      needed for the step. */
  lemma WrapBreaksAba()
    ensures exists s, s' :: Inv(s) && !Recent(s) && Step(s, Internal(0), s') && !Inv(s')
  {
    hide Inv;
    WrappedHolds();
    TornFails();
    assert PopSucceeds(Wrapped(), 0, Torn());
    assert Step(Wrapped(), Internal(0), Torn());
    assert !RecentAt(Wrapped(), 0);
  }
}
