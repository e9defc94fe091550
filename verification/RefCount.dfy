/**
  * The shared reference count: the compare-and-swap loops of refcount_c11.c under every interleaving
  * of any number of threads, against the locked count of refcount_lock.c.
  */
module RefCount {

  /** CRYPTO_REFCOUNT_MAX, the value at which the count saturates */
  const MAX: nat := 0xffff_ffff

  datatype Op = Inc | Dec

  /** What a call comes back with; Dec of a zero count aborts the process. */
  datatype Result = Done | Returned(zero: bool) | Aborted

  // The specification: what one call does under the lock (refcount_lock.c)

  function LockedCount(count: nat, op: Op): nat {
    match op
    case Inc => if count < MAX then count + 1 else count
    case Dec => if 0 < count < MAX then count - 1 else count
  }

  function LockedResult(count: nat, op: Op): Result {
    match op
    case Inc => Done
    case Dec => if count == 0 then Aborted else Returned(LockedCount(count, op) == 0)
  }

  class LockedRefCount {
    var count: nat

    constructor (count: nat)
      ensures this.count == count
    {
      this.count := count;
    }

    method Inc()
      modifies this
      ensures count == LockedCount(old(count), Op.Inc)
    {
      if count < MAX {
        count := count + 1;
      }
    }

    method DecAndTestZero() returns (r: Result)
      modifies this
      ensures count == LockedCount(old(count), Dec) && r == LockedResult(old(count), Dec)
    {
      if count == 0 {
        return Aborted;
      }
      if count < MAX {
        count := count - 1;
      }
      r := Returned(count == 0);
    }
  }

  // The implementation: threads that interleave single atomic accesses (refcount_c11.c)

  /**
    * Where a thread is: outside any call; before its first load; at the head of its loop with the
    * value it last read; or with its result, about to return.
    */
  datatype Pc = Idle | Loading(op: Op) | Looping(op: Op, expected: nat) | Returning(op: Op, result: Result)

  /** One entry of the order in which calls take effect */
  datatype Effect = Effect(thread: nat, op: Op, result: Result)

  /**
    * The count and the threads, with a history: `effects` is the order in which calls took effect,
    * `returned` the calls that came back, in order of their return.
    */
  datatype State = State(count: nat, threads: seq<Pc>, effects: seq<Effect>, returned: seq<Effect>)

  datatype Step =
    | Call(t: nat, op: Op)
    | Load(t: nat)
    | Decide(t: nat)
    | Swap(t: nat, spurious: bool)
    | Return(t: nat)

  /** At the head of its loop, whether a thread leaves it without another access. */
  predicate Leaves(pc: Pc) {
    pc.Looping? && (pc.expected == MAX || (pc.op == Dec && pc.expected == 0))
  }

  predicate Enabled(s: State, step: Step) {
    && step.t < |s.threads|
    && match step
       case Call(t, _) => s.threads[t].Idle?
       case Load(t) => s.threads[t].Loading?
       case Decide(t) => Leaves(s.threads[t])
       case Swap(t, _) => s.threads[t].Looping? && !Leaves(s.threads[t])
       case Return(t) => s.threads[t].Returning?
  }

  /** The result with which a thread leaves its loop without having swapped. */
  function LeavingResult(pc: Pc): Result
    requires Leaves(pc)
  {
    if pc.op == Inc then Done else if pc.expected == 0 then Aborted else Returned(false)
  }

  /** A thread has read `value`. When that makes it leave its loop, its call takes effect here. */
  function Read(s: State, t: nat, op: Op, value: nat): State
    requires t < |s.threads|
  {
    var pc := Looping(op, value);
    s.(threads := s.threads[t := pc],
       effects := if Leaves(pc) then s.effects + [Effect(t, op, LeavingResult(pc))] else s.effects)
  }

  function Next(s: State, step: Step): State
    requires Enabled(s, step)
  {
    var pc := s.threads[step.t];
    match step
    case Call(t, op) => s.(threads := s.threads[t := Loading(op)])
    case Load(t) => Read(s, t, pc.op, s.count)
    case Decide(t) => s.(threads := s.threads[t := Returning(pc.op, LeavingResult(pc))])
    case Swap(t, spurious) =>
      // atomic_compare_exchange_weak: on failure, spurious or not, it reads the count
      if spurious || s.count != pc.expected then Read(s, t, pc.op, s.count)
      else
        var newValue := if pc.op == Inc then pc.expected + 1 else if pc.expected > 0 then pc.expected - 1 else 0;
        var result := if pc.op == Inc then Done else Returned(newValue == 0);
        s.(count := newValue,
           threads := s.threads[t := Returning(pc.op, result)],
           effects := s.effects + [Effect(t, pc.op, result)])
    case Return(t) =>
      s.(threads := s.threads[t := Idle], returned := s.returned + [Effect(t, pc.op, pc.result)])
  }

  predicate IsRun(s: State, steps: seq<Step>, end: State)
    decreases |steps|
  {
    if steps == [] then s == end
    else Enabled(s, steps[0]) && IsRun(Next(s, steps[0]), steps[1..], end)
  }

  function Start(count: nat, threads: nat): State {
    State(count, seq(threads, _ => Idle), [], [])
  }

  // Linearizability

  /** The count after the effects, one after the other, on the locked count */
  function CountAfter(count: nat, effects: seq<Effect>): nat {
    if effects == [] then count
    else LockedCount(CountAfter(count, effects[..|effects| - 1]), effects[|effects| - 1].op)
  }

  /** Every effect has the result the locked count would give there. */
  predicate Legal(count: nat, effects: seq<Effect>) {
    effects == [] ||
    (var n := |effects| - 1;
     Legal(count, effects[..n]) && effects[n].result == LockedResult(CountAfter(count, effects[..n]), effects[n].op))
  }

  function Of(effects: seq<Effect>, t: nat): seq<Effect> {
    if effects == [] then []
    else
      var n := |effects| - 1;
      Of(effects[..n], t) + (if effects[n].thread == t then [effects[n]] else [])
  }

  /** The effect a thread has had in a call that has not returned yet. */
  function Pending(pc: Pc, t: nat): seq<Effect> {
    if pc.Returning? then [Effect(t, pc.op, pc.result)]
    else if Leaves(pc) then [Effect(t, pc.op, LeavingResult(pc))]
    else []
  }

  /**
    * The effects, in their order, are a run of the locked count with the same results and the same
    * final count; each returned call had exactly one effect, with the result it returned.
    */
  ghost predicate Linearized(initial: nat, s: State) {
    && s.count <= MAX
    && Legal(initial, s.effects)
    && s.count == CountAfter(initial, s.effects)
    && forall t: nat | t < |s.threads| :: Of(s.effects, t) == Of(s.returned, t) + Pending(s.threads[t], t)
  }

  lemma AppendEffect(count: nat, effects: seq<Effect>, e: Effect)
    ensures CountAfter(count, effects + [e]) == LockedCount(CountAfter(count, effects), e.op)
    ensures Legal(count, effects + [e]) <==>
            Legal(count, effects) && e.result == LockedResult(CountAfter(count, effects), e.op)
    ensures forall t :: Of(effects + [e], t) == Of(effects, t) + if e.thread == t then [e] else []
  {
    assert (effects + [e])[..|effects|] == effects;
  }

  lemma StepKeepsLinearized(initial: nat, s: State, step: Step)
    requires Linearized(initial, s) && Enabled(s, step)
    ensures Linearized(initial, Next(s, step))
  {
    hide CountAfter, Legal, Of;
    var s', t := Next(s, step), step.t;
    if s'.effects != s.effects {
      AppendEffect(initial, s.effects, s'.effects[|s.effects|]);
      assert s'.effects == s.effects + [s'.effects[|s.effects|]];
    }
    if s'.returned != s.returned {
      AppendEffect(initial, s.returned, s'.returned[|s.returned|]);
      assert s'.returned == s.returned + [s'.returned[|s.returned|]];
    }
    forall u: nat | u < |s.threads| ensures Of(s'.effects, u) == Of(s'.returned, u) + Pending(s'.threads[u], u) {
      assert Of(s.effects, u) == Of(s.returned, u) + Pending(s.threads[u], u);
      assert Of(s.returned, u) + [] == Of(s.returned, u);
    }
  }

  /** Over every interleaving, and whatever spurious failures, the threads behave as if each call were made under the lock. */
  lemma {:induction false} Linearizable(initial: nat, s: State, steps: seq<Step>, end: State)
    requires Linearized(initial, s) && IsRun(s, steps, end)
    ensures Linearized(initial, end)
    ensures s.effects <= end.effects && s.returned <= end.returned
    decreases |steps|
  {
    hide Linearized, Next, Enabled;
    if steps != [] {
      StepKeepsLinearized(initial, s, steps[0]);
      EffectsGrow(s, steps[0]);
      Linearizable(initial, Next(s, steps[0]), steps[1..], end);
    }
  }

  lemma EffectsGrow(s: State, step: Step)
    requires Enabled(s, step)
    ensures s.effects <= Next(s, step).effects && s.returned <= Next(s, step).returned
  {
  }

  lemma StartLinearized(count: nat, threads: nat)
    requires count <= MAX
    ensures Linearized(count, Start(count, threads))
  {
  }

  /** From any count: the threads of every run behave as if each call were made under the lock. */
  lemma LinearizableFromStart(count: nat, threads: nat, steps: seq<Step>, end: State)
    requires count <= MAX && IsRun(Start(count, threads), steps, end)
    ensures Linearized(count, end)
  {
    hide Linearized, IsRun;
    StartLinearized(count, threads);
    Linearizable(count, Start(count, threads), steps, end);
  }

  // Ownership

  /** The threads together with the references each of them holds. */
  datatype World = World(s: State, held: seq<nat>)

  datatype Move = Do(step: Step) | Give(from: nat, to: nat)

  /** Threads take and drop references only while they hold one; an idle thread may hand one on. */
  predicate Allowed(w: World, m: Move) {
    && |w.held| == |w.s.threads|
    && match m
       case Do(step) => Enabled(w.s, step) && (step.Call? ==> w.held[step.t] > 0)
       case Give(from, to) => from < |w.held| && to < |w.held| && w.s.threads[from].Idle? && w.held[from] > 0
  }

  function Moved(w: World, m: Move): World
    requires Allowed(w, m)
  {
    match m
    case Do(step) =>
      var t := step.t;
      World(Next(w.s, step),
            if step.Call? && step.op == Dec then w.held[t := w.held[t] - 1]
            else if step.Return? && w.s.threads[t].op == Inc then w.held[t := w.held[t] + 1]
            else w.held)
    case Give(from, to) =>
      var held := w.held[from := w.held[from] - 1];
      w.(held := held[to := held[to] + 1])
  }

  /** A drop that has not taken effect yet still counts; an increment counts from its effect on. */
  function Weight(pc: Pc): nat {
    match pc
    case Idle => 0
    case Loading(op) => if op == Dec then 1 else 0
    case Looping(op, _) => if (op == Dec) != Leaves(pc) then 1 else 0
    case Returning(op, _) => if op == Inc then 1 else 0
  }

  /** The references there are: those held, and those in the hands of calls under way. */
  function Outstanding(w: World): nat
    requires |w.held| == |w.s.threads|
  {
    Sum(w.held) + Sum(Weights(w.s.threads))
  }

  function Weights(pcs: seq<Pc>): (ws: seq<nat>)
    ensures |ws| == |pcs| && forall i | 0 <= i < |pcs| :: ws[i] == Weight(pcs[i])
  {
    if pcs == [] then [] else Weights(pcs[..|pcs| - 1]) + [Weight(pcs[|pcs| - 1])]
  }

  function Sum(ns: seq<nat>): nat {
    if ns == [] then 0 else Sum(ns[..|ns| - 1]) + ns[|ns| - 1]
  }

  lemma {:induction false} SumUpdate(ns: seq<nat>, i: nat, n: nat)
    requires i < |ns|
    ensures Sum(ns[i := n]) == Sum(ns) - ns[i] + n
  {
    var last := |ns| - 1;
    if i == last {
      assert ns[i := n][..last] == ns[..last];
    } else {
      SumUpdate(ns[..last], i, n);
      assert ns[i := n][..last] == ns[..last][i := n];
    }
  }

  lemma {:induction false} SumAtLeast(ns: seq<nat>, i: nat)
    requires i < |ns|
    ensures ns[i] <= Sum(ns)
  {
    if i < |ns| - 1 {
      SumAtLeast(ns[..|ns| - 1], i);
    }
  }

  lemma WeightsUpdate(pcs: seq<Pc>, t: nat, pc: Pc)
    requires t < |pcs|
    ensures Sum(Weights(pcs[t := pc])) == Sum(Weights(pcs)) - Weight(pcs[t]) + Weight(pc)
  {
    SumUpdate(Weights(pcs), t, Weight(pc));
    assert Weights(pcs[t := pc]) == Weights(pcs)[t := Weight(pc)];
  }

  /** A call under way has a reference to work on: one it holds, or the one it is dropping. */
  predicate Backed(pc: Pc, held: nat) {
    match pc
    case Idle => true
    case Loading(op) => op == Inc ==> held > 0
    case Looping(op, e) => (op == Inc ==> held > 0) && e <= MAX && !(op == Dec && e == 0)
    case Returning(op, result) => (op == Inc ==> held > 0) && result != Aborted
  }

  /**
    * The count is saturated, or is the number of outstanding references; no call is about to abort;
    * and a drop has reported zero exactly when nothing is left, which then is the last effect of all.
    */
  ghost predicate Balanced(w: World) {
    && |w.held| == |w.s.threads| && w.s.count <= MAX
    && (w.s.count == MAX || w.s.count == Outstanding(w))
    && (forall t: nat | t < |w.held| :: Backed(w.s.threads[t], w.held[t]))
    && (forall i | 0 <= i < |w.s.effects| ::
          w.s.effects[i].result != Aborted
          && (w.s.effects[i].result == Returned(true) ==> i == |w.s.effects| - 1 && w.s.count == 0))
    && (w.s.count == 0 ==> w.s.effects != [] && w.s.effects[|w.s.effects| - 1].result == Returned(true))
  }

  /** A thread with a reference, or in a call that counts as one, keeps the number of outstanding references positive. */
  lemma OutstandingPositive(w: World, t: nat)
    requires |w.held| == |w.s.threads| && t < |w.held|
    ensures w.held[t] + Weight(w.s.threads[t]) <= Outstanding(w)
  {
    SumAtLeast(w.held, t);
    SumAtLeast(Weights(w.s.threads), t);
  }

  /** How one move changes the number of outstanding references: it follows the count. */
  lemma OutstandingMoves(w: World, m: Move)
    requires Balanced(w) && Allowed(w, m)
    ensures var w' := Moved(w, m);
            && |w'.held| == |w'.s.threads|
            && (w.s.count < MAX ==> Outstanding(w') == Outstanding(w) + w'.s.count - w.s.count)
  {
    hide Sum, Weights;
    var w' := Moved(w, m);
    match m {
      case Do(step) =>
        var t := step.t;
        OutstandingPositive(w, t);
        assert Backed(w.s.threads[t], w.held[t]);
        WeightsUpdate(w.s.threads, t, w'.s.threads[t]);
        assert w'.s.threads == w.s.threads[t := w'.s.threads[t]];
        SumUpdate(w.held, t, w'.held[t]);
        assert w'.held == w.held[t := w'.held[t]];
      case Give(from, to) =>
        var held := w.held[from := w.held[from] - 1];
        SumUpdate(w.held, from, w.held[from] - 1);
        SumUpdate(held, to, held[to] + 1);
    }
  }

  lemma MoveKeepsBalanced(w: World, m: Move)
    requires Balanced(w) && Allowed(w, m)
    ensures Balanced(Moved(w, m))
  {
    hide Sum, Weights, Outstanding;
    var w' := Moved(w, m);
    OutstandingMoves(w, m);
    if m.Do? {
      OutstandingPositive(w, m.step.t);
      assert Backed(w.s.threads[m.step.t], w.held[m.step.t]);
    }
  }

  predicate IsHistory(w: World, moves: seq<Move>, end: World)
    decreases |moves|
  {
    if moves == [] then w == end
    else Allowed(w, moves[0]) && IsHistory(Moved(w, moves[0]), moves[1..], end)
  }

  lemma {:induction false} HistoryKeepsBalanced(w: World, moves: seq<Move>, end: World)
    requires Balanced(w) && IsHistory(w, moves, end)
    ensures Balanced(end)
    ensures w.s.count == MAX ==> end.s.count == MAX
    decreases |moves|
  {
    hide Balanced, Moved, Allowed;
    if moves != [] {
      MoveKeepsBalanced(w, moves[0]);
      if w.s.count == MAX {
        SaturatedForever(w, moves[0]);
      }
      HistoryKeepsBalanced(Moved(w, moves[0]), moves[1..], end);
    }
  }

  lemma SaturatedForever(w: World, m: Move)
    requires Allowed(w, m) && w.s.count == MAX
    ensures Moved(w, m).s.count == MAX
  {
  }

  /**
    * From a count that is the number of references held: over every interleaving no call aborts; the count
    * is saturated or exact; and as long as it is not saturated, a drop has reported zero exactly when no
    * reference is left, that drop being the last call to take effect.
    */
  lemma LastDropReportsZero(held: seq<nat>, moves: seq<Move>, end: World)
    requires 0 < Sum(held) <= MAX
    requires IsHistory(World(Start(Sum(held), |held|), held), moves, end)
    ensures |end.held| == |end.s.threads|
    ensures forall e <- end.s.effects :: e.result != Aborted
    ensures end.s.count == MAX || end.s.count == Outstanding(end)
    ensures forall i | 0 <= i < |end.s.effects| && end.s.effects[i].result == Returned(true) ::
              i == |end.s.effects| - 1 && end.s.count == 0 == Outstanding(end)
    ensures end.s.count == 0 ==> end.s.effects != [] && end.s.effects[|end.s.effects| - 1].result == Returned(true)
  {
    hide IsHistory, Outstanding;
    StartBalanced(held);
    HistoryKeepsBalanced(World(Start(Sum(held), |held|), held), moves, end);
  }

  lemma StartBalanced(held: seq<nat>)
    requires 0 < Sum(held) <= MAX
    ensures Balanced(World(Start(Sum(held), |held|), held))
  {
    AllIdle(Start(Sum(held), |held|).threads);
  }

  lemma {:induction false} AllIdle(pcs: seq<Pc>)
    requires forall i | 0 <= i < |pcs| :: pcs[i] == Idle
    ensures Sum(Weights(pcs)) == 0
  {
    if pcs != [] {
      var n := |pcs| - 1;
      AllIdle(pcs[..n]);
      assert Weights(pcs)[..n] == Weights(pcs[..n]);
    }
  }
}
