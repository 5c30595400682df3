/**
 One execution together with its streamed inputs. Every path that ends the execution then visits all
 inputs (`cancel_all` or `mark_all_not_cancels`), which releases their upload handlers; each handler is
 counted after it attached and uncounted after it detached, outside every mutex.

 A run interleaves the steps of the execution, of every handler and scan, the counter and the visits.
 */
module UploadHandlers {
  import opened Bytes
  import E = Execution
  import S = StreamSlot

  /** Whether the handler of an input is in the execution's handler count. */
  datatype Count = NotYet | In | Out

  datatype Input = Input(x: S.State, count: Count)

  datatype System = System(
    e: E.State,
    inputs: seq<Input>,
    todo: set<nat>)        // inputs that an ending call has yet to visit

  function Init(limit: nat, n: nat): System {
    System(E.Init(limit), seq(n, _ => Input(S.INIT, NotYet)), {})
  }

  datatype Step =
    | Exec(estep: E.Step)
    | Attach(i: nat)
    | CountIn(i: nat)
    | Produce(i: nat, step: S.Step)
    | CountOut(i: nat)
    | Consume(i: nat, step: S.Step)
    | Visit(i: nat, cancels: bool)

  /** The steps of a DoPut handler after it attached. */
  predicate ByProducer(step: S.Step) {
    match step
    case Upload(_, _) | PollSlot(_, _) | PollRelease(_, _) | BeginFinish | PollFinish(_) => true
    case ReadFails | DecodeThrows | FailInput | Detach => true
    case _ => false
  }

  /** The steps of the scan, and endings of a single input. */
  predicate ByOthers(step: S.Step) {
    step.NextBatch? || step.EmitChunk? || step.MarkConsumed? || step.MarkNotNeeded? || step.CancelInput?
  }

  predicate Enabled(s: System, step: Step) {
    match step
    case Exec(step) => !step.AttachHandler? && !step.DetachHandler? && E.Enabled(s.e, step)
    case Attach(i) => i < |s.inputs| && S.Enabled(s.inputs[i].x, S.Attach)
    case CountIn(i) => i < |s.inputs| && s.inputs[i].count.NotYet? && s.inputs[i].x.producer.Reading?
    case Produce(i, step) =>
      i < |s.inputs| && !s.inputs[i].count.NotYet? && ByProducer(step) && S.Enabled(s.inputs[i].x, step)
    case CountOut(i) =>
      && i < |s.inputs| && s.inputs[i].count.In? && s.inputs[i].x.m.detached
      && E.Enabled(s.e, E.DetachHandler)
    case Consume(i, step) => i < |s.inputs| && ByOthers(step) && S.Enabled(s.inputs[i].x, step)
    case Visit(i, _) => i < |s.inputs| && i in s.todo
  }

  /** The steps after which the calling thread visits every input. */
  predicate Visits(e: E.State, step: E.Step) {
    step.Finish? || (!e.m.quiesced && (step.CancelMark? || (step.CheckDeadline? && step.expired)))
  }

  function All(n: nat): (all: set<nat>)
    ensures forall i :: i in all <==> 0 <= i < n
  {
    if n == 0 then {} else All(n - 1) + {n - 1}
  }

  function SetInput(s: System, i: nat, x: S.State): System
    requires i < |s.inputs|
  {
    s.(inputs := s.inputs[i := s.inputs[i].(x := x)])
  }

  function SetCount(s: System, i: nat, count: Count, e: E.State): System
    requires i < |s.inputs|
  {
    s.(inputs := s.inputs[i := s.inputs[i].(count := count)], e := e)
  }

  function Apply(s: System, step: Step): System
    requires Enabled(s, step)
  {
    match step
    case Exec(step) =>
      s.(e := E.Apply(s.e, step), todo := if Visits(s.e, step) then All(|s.inputs|) else s.todo)
    case Attach(i) => SetInput(s, i, S.Apply(s.inputs[i].x, S.Attach))
    case CountIn(i) => SetCount(s, i, In, E.Apply(s.e, E.AttachHandler))
    case Produce(i, step) => SetInput(s, i, S.Apply(s.inputs[i].x, step))
    case CountOut(i) => SetCount(s, i, Out, E.Apply(s.e, E.DetachHandler))
    case Consume(i, step) => SetInput(s, i, S.Apply(s.inputs[i].x, step))
    case Visit(i, cancels) =>
      SetInput(s, i, S.Apply(s.inputs[i].x, if cancels then S.CancelInput else S.MarkNotNeeded)).(todo := s.todo - {i})
  }

  predicate Reaches(s: System, steps: seq<Step>, t: System)
    decreases |steps|
  {
    if steps == [] then s == t
    else Enabled(s, steps[0]) && Reaches(Apply(s, steps[0]), steps[1..], t)
  }

  // ---------------------------------------------------------------------------
  // Sums over the inputs
  // ---------------------------------------------------------------------------

  function Sum(w: seq<nat>): nat {
    if w == [] then 0 else Sum(w[..|w| - 1]) + w[|w| - 1]
  }

  lemma {:induction false} SumUpdate(w: seq<nat>, i: nat, v: nat)
    requires i < |w|
    ensures Sum(w[i := v]) + w[i] == Sum(w) + v
  {
    var n := |w| - 1;
    if i == n {
      assert w[i := v][..n] == w[..n];
    } else {
      SumUpdate(w[..n], i, v);
      assert w[i := v][..n] == w[..n][i := v];
    }
  }

  lemma {:induction false} SumZero(w: seq<nat>)
    requires forall i :: 0 <= i < |w| ==> w[i] == 0
    ensures Sum(w) == 0
  {
    if w != [] { SumZero(w[..|w| - 1]); }
  }

  lemma {:induction false} SumAtLeast(w: seq<nat>, i: nat)
    requires i < |w|
    ensures w[i] <= Sum(w)
  {
    if i < |w| - 1 { SumAtLeast(w[..|w| - 1], i); }
  }

  function Counted(input: Input): nat {
    if input.count.In? then 1 else 0
  }

  function Counts(inputs: seq<Input>): (w: seq<nat>)
    ensures |w| == |inputs|
  {
    seq(|inputs|, i requires 0 <= i < |inputs| => Counted(inputs[i]))
  }

  lemma CountsUpdate(inputs: seq<Input>, i: nat, input: Input)
    requires i < |inputs|
    ensures Sum(Counts(inputs[i := input])) + Counted(inputs[i]) == Sum(Counts(inputs)) + Counted(input)
  {
    SumUpdate(Counts(inputs), i, Counted(input));
    assert Counts(inputs[i := input]) == Counts(inputs)[i := Counted(input)];
  }

  // ---------------------------------------------------------------------------
  // The inductive invariant
  // ---------------------------------------------------------------------------

  /** An ended or fully consumed input no longer makes its handler wait. */
  predicate Released(x: S.State) {
    S.Ended(x.m) || x.m.consumerEof
  }

  predicate CountOk(input: Input) {
    var p := input.x.producer;
    && (input.count.NotYet? ==> p.Unattached? || p.Reading?)
    && (!input.count.NotYet? ==> !p.Unattached?)
    && (p.Left? || p.LateFailing? ==> input.x.m.detached)
    && (input.count.Out? ==> p.Left? || p.LateFailing?)
    && (input.x.m.detached ==> p.Left? || p.LateFailing?)
  }

  predicate InputOk(input: Input) {
    S.Inv(input.x) && CountOk(input)
  }

  predicate InputsInv(s: System) {
    forall i :: 0 <= i < |s.inputs| ==> InputOk(s.inputs[i])
  }

  predicate CountInv(s: System) {
    s.e.handlers == Sum(Counts(s.inputs))
  }

  predicate VisitInv(s: System) {
    && (forall i :: i in s.todo ==> i < |s.inputs|)
    && (s.e.m.terminal ==> forall i :: 0 <= i < |s.inputs| ==> i in s.todo || Released(s.inputs[i].x))
  }

  predicate Inv(s: System) {
    E.Inv(s.e) && InputsInv(s) && CountInv(s) && VisitInv(s)
  }

  lemma InitInv(limit: nat, n: nat)
    ensures Inv(Init(limit, n))
  {
    E.InitInv(limit);
    S.InitInv();
    SumZero(Counts(Init(limit, n).inputs));
  }

  /** What a step of an input's threads keeps. */
  lemma InputStep(input: Input, step: S.Step)
    requires InputOk(input) && S.Enabled(input.x, step)
    requires ByProducer(step) ==> !input.count.NotYet?
    requires step.Attach? || ByProducer(step) || ByOthers(step)
    ensures InputOk(input.(x := S.Apply(input.x, step)))
    ensures Released(input.x) ==> Released(S.Apply(input.x, step))
  {
    S.StepInv(input.x, step);
    S.StepLater(input.x, step);
    CountStep(input, step);
    hide S.Inv, S.Apply, S.Enabled;
  }

  lemma CountStep(input: Input, step: S.Step)
    requires InputOk(input) && S.Enabled(input.x, step)
    requires ByProducer(step) ==> !input.count.NotYet?
    requires step.Attach? || ByProducer(step) || ByOthers(step)
    ensures CountOk(input.(x := S.Apply(input.x, step)))
  {
    hide S.SlotInv, S.ScanInv, S.AckInv, S.EndingInv, S.ReceivedInv;
  }

  lemma VisitReleases(x: S.State, cancels: bool)
    ensures Released(S.Apply(x, if cancels then S.CancelInput else S.MarkNotNeeded))
  {
  }

  /** An input takes a step; its count and the execution stay. */
  lemma InputKeeps(s: System, i: nat, step: S.Step)
    requires Inv(s) && i < |s.inputs| && S.Enabled(s.inputs[i].x, step)
    requires ByProducer(step) ==> !s.inputs[i].count.NotYet?
    requires step.Attach? || ByProducer(step) || ByOthers(step)
    ensures Inv(SetInput(s, i, S.Apply(s.inputs[i].x, step)))
  {
    hide E.Inv, InputOk, S.Apply, S.Enabled, Released;
    InputStep(s.inputs[i], step);
    CountsUpdate(s.inputs, i, s.inputs[i].(x := S.Apply(s.inputs[i].x, step)));
  }

  lemma ExecKeeps(s: System, step: E.Step)
    requires Inv(s) && E.Enabled(s.e, step) && !step.AttachHandler? && !step.DetachHandler?
    ensures Inv(Apply(s, Exec(step)))
  {
    hide InputOk, Released, E.Inv;
    E.StepInv(s.e, step);
    ExecFacts(s.e, step);
    hide E.Apply, E.Enabled;
  }

  lemma ExecFacts(e: E.State, step: E.Step)
    requires E.Inv(e) && E.Enabled(e, step) && !step.AttachHandler? && !step.DetachHandler?
    ensures E.Apply(e, step).handlers == e.handlers
    ensures E.Apply(e, step).m.terminal ==> e.m.terminal || Visits(e, step)
  {
    hide E.NotifyInv, E.SlotInv, E.FlowInv, E.BegunInv, E.EndInv;
  }

  lemma CountKeeps(s: System, i: nat, step: Step)
    requires Inv(s) && Enabled(s, step) && (step == CountIn(i) || step == CountOut(i))
    ensures Inv(Apply(s, step))
  {
    hide InputOk, E.Inv, Released;
    var count := if step.CountIn? then In else Out;
    RecountedOk(s.inputs[i], count);
    E.StepInv(s.e, if step.CountIn? then E.AttachHandler else E.DetachHandler);
    CountsUpdate(s.inputs, i, s.inputs[i].(count := count));
  }

  lemma RecountedOk(input: Input, count: Count)
    requires InputOk(input) && !count.NotYet?
    requires count.In? ==> input.x.producer.Reading?
    requires count.Out? ==> !input.count.NotYet? && input.x.m.detached
    ensures InputOk(input.(count := count))
  {
    hide S.Inv;
  }

  lemma VisitKeeps(s: System, i: nat, cancels: bool)
    requires Inv(s) && Enabled(s, Visit(i, cancels))
    ensures Inv(Apply(s, Visit(i, cancels)))
  {
    hide E.Inv, InputOk, S.Apply, Released;
    var step := if cancels then S.CancelInput else S.MarkNotNeeded;
    InputKeeps(s, i, step);
    VisitReleases(s.inputs[i].x, cancels);
  }

  lemma StepInv(s: System, step: Step)
    requires Inv(s) && Enabled(s, step)
    ensures Inv(Apply(s, step))
  {
    hide Inv, S.Apply, S.Enabled, E.Apply, E.Enabled;
    match step {
      case Exec(estep) => ExecKeeps(s, estep);
      case Attach(i) => InputKeeps(s, i, S.Attach);
      case CountIn(i) => CountKeeps(s, i, step);
      case Produce(i, sstep) => InputKeeps(s, i, sstep);
      case CountOut(i) => CountKeeps(s, i, step);
      case Consume(i, sstep) => InputKeeps(s, i, sstep);
      case Visit(i, cancels) => VisitKeeps(s, i, cancels);
    }
  }

  lemma {:induction false} RunInv(s: System, steps: seq<Step>, t: System)
    requires Inv(s) && Reaches(s, steps, t)
    ensures Inv(t)
    decreases |steps|
  {
    hide Inv, Enabled, Apply;
    if steps != [] {
      StepInv(s, steps[0]);
      RunInv(Apply(s, steps[0]), steps[1..], t);
    }
  }

  // ---------------------------------------------------------------------------
  // Everything winds down
  // ---------------------------------------------------------------------------

  /** Steps that wind a terminal execution down: its own, the counter's, the visits', and those of released handlers. */
  predicate Winding(s: System, step: Step) {
    match step
    case Exec(estep) => E.Winding(estep)
    case CountIn(_) | CountOut(_) | Visit(_, _) => true
    case Produce(i, _) => i < |s.inputs| && Released(s.inputs[i].x)
    case _ => false
  }

  function ProducerRank(p: S.Producer): nat {
    match p
    case Reading => 5
    case SlotWait(_) | ReleaseWait | FinishWait => 4
    case Failing | Unwinding => 3
    case Leaving | LateFailing => 2
    case _ => 0
  }

  function Weight(input: Input): nat {
    ProducerRank(input.x.producer) + if input.count.NotYet? && !input.x.producer.Unattached? then 4 else 0
  }

  function Weights(inputs: seq<Input>): (w: seq<nat>)
    ensures |w| == |inputs|
  {
    seq(|inputs|, i requires 0 <= i < |inputs| => Weight(inputs[i]))
  }

  lemma WeightsUpdate(inputs: seq<Input>, i: nat, input: Input)
    requires i < |inputs|
    ensures Sum(Weights(inputs[i := input])) + Weight(inputs[i]) == Sum(Weights(inputs)) + Weight(input)
  {
    SumUpdate(Weights(inputs), i, Weight(input));
    assert Weights(inputs[i := input]) == Weights(inputs)[i := Weight(input)];
  }

  /** How many rounds of visits the worker may still start in its current batch and at its end. */
  function Rounds(w: E.Worker): nat {
    if w.Entered? then 2 else if E.InBatch(w) then 1 else 0
  }

  function Rank(s: System): nat {
    E.Rank(s.e) + |s.inputs| * Rounds(s.e.worker) + Sum(Weights(s.inputs)) + |s.todo|
  }

  lemma {:induction false} TodoIsBounded(n: nat, todo: set<nat>)
    requires forall i :: i in todo ==> i < n
    ensures |todo| <= n
  {
    if n == 0 {
      assert todo == {};
    } else {
      TodoIsBounded(n - 1, todo - {n - 1});
      assert n - 1 !in todo ==> todo - {n - 1} == todo;
    }
  }

  /** A released handler only moves towards the exit. */
  lemma ProducerDescends(input: Input, step: S.Step)
    requires InputOk(input) && S.Enabled(input.x, step) && ByProducer(step)
    ensures Released(input.x) ==>
              ProducerRank(S.Apply(input.x, step).producer) < ProducerRank(input.x.producer)
    ensures ProducerRank(S.Apply(input.x, step).producer) <= ProducerRank(input.x.producer) + 1
    ensures !S.Apply(input.x, step).producer.Unattached?
  {
    hide S.SlotInv, S.ScanInv, S.AckInv;
  }

  lemma BystandersKeepProducer(x: S.State, step: S.Step)
    requires ByOthers(step) && S.Enabled(x, step)
    ensures S.Apply(x, step).producer == x.producer
  {
  }

  lemma ExecRank(s: System, step: E.Step)
    requires Inv(s) && s.e.m.terminal && Enabled(s, Exec(step))
    ensures E.Winding(step) ==> Rank(Apply(s, Exec(step))) < Rank(s)
    ensures !E.Winding(step) ==> Rank(Apply(s, Exec(step))) <= Rank(s) + 3 + |s.inputs|
  {
    hide InputOk, Released, Sum, E.Inv, E.Rank, Rounds, All;
    var n := |s.inputs|;
    E.RankDescends(s.e, step);
    TodoIsBounded(n, All(n));
    RoundsFall(s.e, step);
    hide E.Apply, E.Enabled;
    var before, after := Rounds(s.e.worker), Rounds(E.Apply(s.e, step).worker);
    var visits := if Visits(s.e, step) then 1 else 0;
    Scale(n, before, after + visits);
    assert n * (after + visits) == n * after + n * visits;
  }

  lemma Scale(n: nat, before: nat, after: nat)
    ensures after <= before ==> n * after <= n * before
    ensures after <= before + 1 ==> n * after <= n * before + n
  {
    assert n * (before + 1) == n * before + n;
    assert n * (before - after) == n * before - n * after;
    assert n * (before + 1 - after) == n * before + n - n * after;
  }

  lemma RoundsFall(e: E.State, step: E.Step)
    requires E.Inv(e) && e.m.terminal && E.Enabled(e, step)
    ensures var before, after := Rounds(e.worker), Rounds(E.Apply(e, step).worker);
            && (E.Winding(step) ==> after + (if Visits(e, step) then 1 else 0) <= before)
            && (!E.Winding(step) ==> after + (if Visits(e, step) then 1 else 0) <= before + 1)
  {
    hide E.NotifyInv, E.SlotInv, E.FlowInv, E.BegunInv, E.EndInv;
  }

  lemma InputRank(s: System, i: nat, x: S.State)
    requires i < |s.inputs|
    ensures Rank(SetInput(s, i, x)) + Weight(s.inputs[i]) == Rank(s) + Weight(s.inputs[i].(x := x))
  {
    hide E.Rank, Rounds, Sum, Weight;
    WeightsUpdate(s.inputs, i, s.inputs[i].(x := x));
  }

  lemma CountRank(s: System, step: Step)
    requires Inv(s) && s.e.m.terminal && Enabled(s, step) && (step.CountIn? || step.CountOut?)
    ensures Rank(Apply(s, step)) < Rank(s)
  {
    hide E.Inv, InputOk, Released, Sum;
    var count := if step.CountIn? then In else Out;
    WeightsUpdate(s.inputs, step.i, s.inputs[step.i].(count := count));
  }

  lemma VisitRank(s: System, step: Step)
    requires Enabled(s, step) && step.Visit?
    ensures Rank(Apply(s, step)) < Rank(s)
  {
    hide E.Rank, Rounds, Sum;
    var x := S.Apply(s.inputs[step.i].x, if step.cancels then S.CancelInput else S.MarkNotNeeded);
    InputRank(s, step.i, x);
    hide Weights;
    assert Rank(Apply(s, step)) + 1 == Rank(SetInput(s, step.i, x));
  }

  lemma AttachRank(s: System, i: nat)
    requires Enabled(s, Attach(i))
    ensures Rank(Apply(s, Attach(i))) <= Rank(s) + 9
  {
    hide Rank;
    InputRank(s, i, S.Apply(s.inputs[i].x, S.Attach));
  }

  lemma ProduceRank(s: System, i: nat, step: S.Step)
    requires InputsInv(s) && Enabled(s, Produce(i, step))
    ensures Released(s.inputs[i].x) ==> Rank(Apply(s, Produce(i, step))) < Rank(s)
    ensures Rank(Apply(s, Produce(i, step))) <= Rank(s) + 1
  {
    hide Rank, S.Apply, S.Enabled, S.Inv, Released;
    assert InputOk(s.inputs[i]);
    ProducerDescends(s.inputs[i], step);
    InputRank(s, i, S.Apply(s.inputs[i].x, step));
  }

  lemma ConsumeRank(s: System, i: nat, step: S.Step)
    requires Enabled(s, Consume(i, step))
    ensures Rank(Apply(s, Consume(i, step))) == Rank(s)
  {
    hide Rank, S.Apply, S.Enabled;
    BystandersKeepProducer(s.inputs[i].x, step);
    InputRank(s, i, S.Apply(s.inputs[i].x, step));
  }

  /** Winding steps lower the rank; another step raises it by at most nine and the number of inputs. */
  lemma RankDescends(s: System, step: Step)
    requires Inv(s) && s.e.m.terminal && Enabled(s, step)
    ensures Winding(s, step) ==> Rank(Apply(s, step)) < Rank(s)
    ensures Rank(Apply(s, step)) <= Rank(s) + 9 + |s.inputs|
  {
    hide Rank, Apply, E.Inv, CountInv, VisitInv, InputOk, Released, E.Enabled, S.Enabled;
    match step {
      case Exec(estep) => ExecRank(s, estep);
      case Attach(i) => AttachRank(s, i);
      case CountIn(i) => CountRank(s, step);
      case Produce(i, sstep) => ProduceRank(s, i, sstep);
      case CountOut(i) => CountRank(s, step);
      case Consume(i, sstep) => ConsumeRank(s, i, sstep);
      case Visit(i, _) => VisitRank(s, step);
    }
  }

  /** The winding steps of a run. */
  function Windings(s: System, steps: seq<Step>, t: System): (n: nat)
    requires Reaches(s, steps, t)
    ensures n <= |steps|
    decreases |steps|
  {
    if steps == [] then 0
    else (if Winding(s, steps[0]) then 1 else 0) + Windings(Apply(s, steps[0]), steps[1..], t)
  }

  lemma StaysTerminal(s: System, step: Step)
    requires Inv(s) && s.e.m.terminal && Enabled(s, step)
    ensures Apply(s, step).e.m.terminal && Apply(s, step).e.m.status == s.e.m.status
    ensures |Apply(s, step).inputs| == |s.inputs|
  {
    hide InputsInv, CountInv, VisitInv, E.Inv, E.Apply, S.Apply, S.Enabled;
    match step {
      case Exec(estep) => E.StepLater(s.e, estep);
      case CountIn(_) => E.StepLater(s.e, E.AttachHandler);
      case CountOut(_) => E.StepLater(s.e, E.DetachHandler);
      case _ =>
    }
  }

  lemma {:induction false} WindingsAreBounded(s: System, steps: seq<Step>, t: System)
    requires Inv(s) && s.e.m.terminal && Reaches(s, steps, t)
    ensures t.e.m.terminal && t.e.m.status == s.e.m.status
    ensures Windings(s, steps, t) <= Rank(s) + (9 + |s.inputs|) * (|steps| - Windings(s, steps, t))
    decreases |steps|
  {
    hide Inv, Apply, Enabled, Rank, Winding;
    if steps != [] {
      var u, k := Apply(s, steps[0]), 9 + |s.inputs|;
      StepInv(s, steps[0]);
      StaysTerminal(s, steps[0]);
      RankDescends(s, steps[0]);
      WindingsAreBounded(u, steps[1..], t);
      var others := |steps| - 1 - Windings(u, steps[1..], t);
      assert k * (others + 1) == k * others + k;
    }
  }

  ghost predicate Settled(s: System) {
    forall step :: Winding(s, step) ==> !Enabled(s, step)
  }

  /** A released handler that has not left can always move. */
  lemma HandlerCanMove(input: Input) returns (step: S.Step)
    requires InputOk(input) && Released(input.x) && input.count.In? && !input.x.m.detached
    ensures ByProducer(step) && S.Enabled(input.x, step)
  {
    hide S.SlotInv, S.ScanInv, S.AckInv;
    match input.x.producer
    case Reading => step := S.ReadFails;
    case ReleaseWait => step := S.PollRelease(false, true);
    case FinishWait => step := S.PollFinish(false);
    case Failing => step := S.FailInput;
    case _ => step := S.Detach;
  }

  lemma SettledInput(s: System, i: nat)
    requires Inv(s) && s.e.m.terminal && Settled(s) && i < |s.inputs|
    ensures !s.inputs[i].count.In? && Released(s.inputs[i].x)
    ensures s.inputs[i].x.producer.Unattached? || s.inputs[i].x.producer.Left?
  {
    hide E.Inv, S.Inv, S.Enabled, E.Enabled, Sum, Settled;
    assert InputOk(s.inputs[i]);
    Exhausted(s, Visit(i, true));
    Exhausted(s, CountIn(i));
    Exhausted(s, CountOut(i));
    if s.inputs[i].count.In? {
      InAreCounted(s, i);
      var step := HandlerCanMove(s.inputs[i]);
      Exhausted(s, Produce(i, step));
    } else if s.inputs[i].x.producer.LateFailing? {
      LateCanFail(s.inputs[i].x);
      Exhausted(s, Produce(i, S.FailInput));
    }
  }

  lemma Exhausted(s: System, step: Step)
    requires Settled(s) && Winding(s, step)
    ensures !Enabled(s, step)
  {
  }

  lemma LateCanFail(x: S.State)
    requires x.producer.LateFailing?
    ensures S.Enabled(x, S.FailInput)
  {
  }

  lemma InAreCounted(s: System, i: nat)
    requires CountInv(s) && i < |s.inputs| && s.inputs[i].count.In?
    ensures E.Enabled(s.e, E.DetachHandler)
  {
    SumAtLeast(Counts(s.inputs), i);
  }

  lemma SettledExecution(s: System)
    requires Settled(s) && s.e.handlers == 0
    ensures E.Settled(s.e)
  {
    forall step | E.Winding(step) ensures !E.Enabled(s.e, step) {
      assert !step.DetachHandler? ==> !Enabled(s, Exec(step));
    }
  }

  /**
   The terminal notification is delivered without any assumption on the handlers. In every run of an
   execution with its inputs, once the execution is terminal, the winding steps, among them those of
   every handler whose input was visited, are bounded by the rank and a constant for each other step;
   and when none is left, every input is released, every handler that ever attached has left, none is
   counted, and the execution has quiesced and notified exactly once, with its first status.
   */
  lemma HandlersLeave(limit: nat, n: nat, before: seq<Step>, s: System, after: seq<Step>, t: System)
    requires Reaches(Init(limit, n), before, s) && s.e.m.terminal && Reaches(s, after, t)
    ensures Windings(s, after, t) <= Rank(s) + (9 + |s.inputs|) * (|after| - Windings(s, after, t))
    ensures Settled(t) ==>
              && t.e.handlers == 0 && t.e.m.quiesced && t.e.fired == 1 && t.e.m.status == s.e.m.status
              && forall i :: 0 <= i < |t.inputs| ==>
                   && Released(t.inputs[i].x)
                   && (t.inputs[i].x.producer.Unattached? || t.inputs[i].x.producer.Left?)
  {
    hide E.Inv, InputsInv, VisitInv, Reaches, Rank, Windings, Settled, Released, Sum, E.Settled;
    InitInv(limit, n);
    RunInv(Init(limit, n), before, s);
    RunInv(s, after, t);
    WindingsAreBounded(s, after, t);
    if Settled(t) {
      forall i | 0 <= i < |t.inputs|
        ensures !t.inputs[i].count.In? && Released(t.inputs[i].x)
        ensures t.inputs[i].x.producer.Unattached? || t.inputs[i].x.producer.Left?
      {
        SettledInput(t, i);
      }
      SumZero(Counts(t.inputs));
      SettledExecution(t);
      E.SettledIsNotified(t.e);
    }
  }
}
