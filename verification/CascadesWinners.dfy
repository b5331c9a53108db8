/** Why every winner can be read: when all operators of a plan are known to some rule, a
    group only gets a winner after all its input groups have one, at every step of the run. */
module CascadesWinners {
  import opened Options
  import opened RelPlan
  import opened CascadesModel
  import opened CascadesRun
  import opened CascadesInv

  /** The expression `g - 1` that opened group `g`, with its rule still to be fired. */
  ghost predicate Unfired(c: Core, g: GroupId, e: ExprId) {
    && e + 1 == g && e in c.memo.nodes && Convertible(c.memo.nodes[e].op)
    && !IsFired(c.fired, e, RuleFor(c.memo.nodes[e].op))
  }

  ghost predicate HasPhysical(m: Memo, g: GroupId) {
    exists e :: e in GroupAt(m, g).exprs && e in m.nodes && IsPhysical(m.nodes[e].op)
  }

  /** Every group was opened by a convertible expression, and has a physical member once
      the rule of that expression was fired. */
  ghost predicate SeedOk(c: Core, g: GroupId) {
    && g > 0 && g - 1 in c.memo.nodes && Convertible(c.memo.nodes[g - 1].op) && g - 1 in GroupAt(c.memo, g).exprs
    && (Unfired(c, g, g - 1) || HasPhysical(c.memo, g))
  }

  ghost predicate SeedsOk(c: Core) { forall g :: g in c.memo.groups ==> SeedOk(c, g) }

  /** A task whose execution leads to a winner of group `g`. */
  ghost predicate Promises(c: Core, g: GroupId, t: Task) {
    match t
    case OptimizeGroup(h) => h == g
    case OptimizeExpr(e, exploring) => !exploring && Unfired(c, g, e)
    case ApplyRuleTo(r, e, _) => Unfired(c, g, e) && r == RuleFor(c.memo.nodes[e].op)
    case OptimizeInputs(e, _, _) => e in c.memo.groupOf && c.memo.groupOf[e] == g
    case ExploreGroup(_) => false
  }

  /** The group has a winner, or some task in `ts` leads to one. */
  ghost predicate Promised(c: Core, g: GroupId, ts: seq<Task>) {
    HasWinner(c.memo, g) || exists t :: t in ts && Promises(c, g, t)
  }

  /** An inputs task is past inputs that have winners, and the input it waits for is
      promised by the tasks above it. */
  ghost predicate Waits(c: Core, e: ExprId, k: Continue, above: seq<Task>)
    requires e in c.memo.nodes
  {
    var gs := c.memo.nodes[e].children;
    && (forall i :: 0 <= i < |gs| && i < k.nextGroupIdx ==> HasWinner(c.memo, gs[i]))
    && (k.returned && k.nextGroupIdx < |gs| ==> Promised(c, gs[k.nextGroupIdx], above))
  }

  ghost predicate Ready(c: Core, t: Task, above: seq<Task>) {
    t.OptimizeInputs? && t.from.Some? && t.expr in c.memo.nodes ==> Waits(c, t.expr, t.from.value, above)
  }

  ghost predicate StackReady(c: Core, ts: seq<Task>) {
    forall j :: 0 <= j < |ts| ==> Ready(c, ts[j], ts[j + 1..])
  }

  /** The inputs of a winner all have winners. */
  ghost predicate WinnerInputsOk(m: Memo, g: GroupId) {
    GroupAt(m, g).winner.Some? ==>
      var e := GroupAt(m, g).winner.value.expr;
      e in m.nodes && forall i :: 0 <= i < |m.nodes[e].children| ==> HasWinner(m, m.nodes[e].children[i])
  }

  ghost predicate WinnersOk(m: Memo) { forall g :: g in m.groups ==> WinnerInputsOk(m, g) }

  ghost predicate AllReady(s: OptState, top: GroupId) {
    && SeedsOk(s.core) && WinnersOk(s.core.memo) && StackReady(s.core, s.tasks)
    && top in s.core.memo.groups && Promised(s.core, top, s.tasks)
  }

  // ---- what the tasks push -------------------------------------------------

  lemma {:induction false} ExprTaskPushed(m: Memo, exprs: seq<ExprId>, exploring: bool, e: ExprId)
    requires e in exprs && IsLogical(NodeAt(m, e).op)
    ensures OptimizeExpr(e, exploring) in ExprTasks(m, exprs, exploring)
  {
    hide IsLogical;
    if e != exprs[0] { ExprTaskPushed(m, exprs[1..], exploring, e); }
  }

  lemma {:induction false} InputTaskPushed(m: Memo, exprs: seq<ExprId>, e: ExprId)
    requires e in exprs && IsPhysical(NodeAt(m, e).op)
    ensures OptimizeInputs(e, None, true) in InputTasks(m, exprs)
  {
    hide IsPhysical;
    if e != exprs[0] { InputTaskPushed(m, exprs[1..], e); }
  }

  lemma {:induction false} RuleTaskPushed(c: Core, e: ExprId, r: RuleId)
    requires e in c.memo.nodes && Convertible(c.memo.nodes[e].op) && r <= RuleFor(c.memo.nodes[e].op)
    requires !IsFired(c.fired, e, RuleFor(c.memo.nodes[e].op))
    ensures ApplyRuleTo(RuleFor(c.memo.nodes[e].op), e, false) in RuleTasks(c, e, false, r)
    decreases |RULES| - r
  {
    hide ExploreTasks;
    if r < RuleFor(c.memo.nodes[e].op) {
      RuleTaskPushed(c, e, r + 1);
    } else {
      RuleConverts(c.memo.nodes[e].op);
    }
  }

  /** An unoptimized group asks for its opening expression, or for its physical members. */
  lemma GroupTaskPromises(c: Core, g: GroupId)
    requires MemoOk(c.memo) && g in c.memo.groups && SeedOk(c, g)
    ensures Promised(c, g, ExecGroup(c, g))
  {
    hide MemoOk, ExprTasks, InputTasks, IsLogical, IsPhysical, Ascending;
    WinnerPossible(c.memo, g);
    var exprs := ExprsInGroup(c.memo, g);
    AscendingSpec(c.memo.groups[g].exprs);
    if c.memo.groups[g].winner == None {
      if Unfired(c, g, g - 1) {
        ConvertibleIsLogical(c.memo.nodes[g - 1].op);
        ExprTaskPushed(c.memo, exprs, false, g - 1);
        assert OptimizeExpr(g - 1, false) in ExecGroup(c, g);
      } else {
        var p :| p in c.memo.groups[g].exprs && p in c.memo.nodes && IsPhysical(c.memo.nodes[p].op);
        InputTaskPushed(c.memo, exprs, p);
        MemberOf(c.memo, g, p);
        assert OptimizeInputs(p, None, true) in ExecGroup(c, g);
      }
    }
  }

  lemma ConvertibleIsLogical(op: Operator)
    requires Convertible(op)
    ensures IsLogical(op)
  {
  }

  lemma WinnerPossible(m: Memo, g: GroupId)
    requires MemoOk(m) && g in m.groups
    ensures HasWinner(m, g) <==> m.groups[g].winner.Some?
  {
  }

  lemma MemberOf(m: Memo, g: GroupId, e: ExprId)
    requires MemoOk(m) && g in m.groups && e in m.groups[g].exprs
    ensures e in m.groupOf && m.groupOf[e] == g
  {
  }

  lemma FirstPromises(c: Core, g: GroupId, t: Task, ts: seq<Task>)
    requires Promises(c, g, t) && t in ts
    ensures Promised(c, g, ts)
  {
  }

  /** A promising task either gives the group its winner or pushes a promising task. */
  lemma PromiseHandedOn(c: Core, t: Task, g: GroupId)
    requires MemoOk(c.memo) && TaskOk(c.memo, t) && g in c.memo.groups && SeedOk(c, g) && Promises(c, g, t)
    ensures Promised(Exec(c, t).0, g, Exec(c, t).1)
  {
    hide MemoOk, ExecGroup, ExecApply, ExecInputs, RuleTasks, Promised;
    match t {
      case OptimizeGroup(h) =>
        GroupTaskPromises(c, g);
      case OptimizeExpr(e, exploring) =>
        RuleTaskPushed(c, e, 0);
        FirstPromises(c, g, ApplyRuleTo(RuleFor(c.memo.nodes[e].op), e, false), RuleTasks(c, e, false, 0));
      case ApplyRuleTo(r, e, exploring) =>
        FiringPromises(c, r, e, exploring, g);
      case OptimizeInputs(e, from, pruning) =>
        InputsPromise(c, e, from, pruning, g);
      case ExploreGroup(_) =>
    }
  }

  lemma FiringPromises(c: Core, r: RuleId, e: ExprId, exploring: bool, g: GroupId)
    requires MemoOk(c.memo) && TaskOk(c.memo, ApplyRuleTo(r, e, exploring)) && !IsFired(c.fired, e, r)
    requires g in c.memo.groups && e in GroupAt(c.memo, g).exprs
    ensures r < |RULES|
    ensures var (c', ts) := ExecApply(c, r, e, exploring); Promised(c', g, ts) && HasPhysical(c'.memo, g)
  {
    hide MemoOk, IsPhysical, ExecApply;
    FiringAdds(c, r, e, exploring);
    MemberOf(c.memo, g, e);
    var (c', ts) := ExecApply(c, r, e, exploring);
    assert OptimizeInputs(c'.memo.counter, None, true) in ts;
    assert c'.memo.counter in GroupAt(c'.memo, g).exprs;
  }

  lemma InputsPromise(c: Core, e: ExprId, from: Option<Continue>, pruning: bool, g: GroupId)
    requires MemoOk(c.memo) && e in c.memo.nodes && e in c.memo.groupOf && c.memo.groupOf[e] == g
    ensures var (c', ts) := ExecInputs(c, e, from, pruning); Promised(c', g, ts)
  {
    hide MemoOk, InputCosts, SumFrom;
    var gs := c.memo.nodes[e].children;
    var (c', ts) := ExecInputs(c, e, from, pruning);
    if from == None || from.value.nextGroupIdx < |gs| {
      assert ts[0].OptimizeInputs? && ts[0].expr == e;
      assert c'.memo == c.memo;
      FirstPromises(c', g, ts[0], ts);
    } else {
      assert HasWinner(c'.memo, g);
    }
  }

  /** A promise made elsewhere on the stack is kept, or the executed task makes it anew. */
  lemma PromiseStays(c: Core, t: Task, u: Task, g: GroupId)
    requires MemoOk(c.memo) && TaskOk(c.memo, t) && g in c.memo.groups && SeedOk(c, g) && Promises(c, g, u)
    ensures Promises(Exec(c, t).0, g, u) || Promised(Exec(c, t).0, g, Exec(c, t).1)
  {
    hide MemoOk, ExecGroup, ExecApply, ExecInputs, RuleTasks, Promised, ExecExplore;
    ExecOk(c, t);
    MarksOf(c, t);
    if t.ApplyRuleTo? && t.expr == g - 1 && !IsFired(c.fired, t.expr, t.rule) {
      FiringPromises(c, t.rule, t.expr, t.exploring, g);
    }
  }

  /** Rules are only marked by the task that applies them. */
  lemma MarksOf(c: Core, t: Task)
    requires MemoOk(c.memo) && TaskOk(c.memo, t)
    ensures Exec(c, t).0.fired == if t.ApplyRuleTo? && !IsFired(c.fired, t.expr, t.rule)
                                  then MarkFired(c.fired, t.expr, t.rule) else c.fired
  {
    hide MemoOk, ExecGroup, RuleTasks, InputCosts, SumFrom, ExprTasks, ApplyToAll, Bindings;
  }

  /** Executing the top task breaks no promise of the stack above a position. */
  lemma PromiseKept(c: Core, t: Task, us: seq<Task>, g: GroupId)
    requires MemoOk(c.memo) && TaskOk(c.memo, t) && g in c.memo.groups && SeedOk(c, g) && Promised(c, g, us + [t])
    ensures Promised(Exec(c, t).0, g, us + Exec(c, t).1)
  {
    hide MemoOk, Exec, SeedOk, Promises, TaskOk;
    ExecOk(c, t);
    if !HasWinner(c.memo, g) {
      var u :| u in us + [t] && Promises(c, g, u);
      if u == t { PromiseHandedOn(c, t, g); } else { PromiseStays(c, t, u, g); assert u in us; }
    }
  }

  // ---- the parts of the invariant ------------------------------------------

  lemma GroupsStay(c: Core, t: Task)
    requires MemoOk(c.memo) && TaskOk(c.memo, t)
    ensures Exec(c, t).0.memo.groups.Keys == c.memo.groups.Keys
  {
    hide MemoOk, ExecGroup, RuleTasks, InputCosts, SumFrom, ExprTasks, ApplyToAll, Bindings, IsPhysical, IsUpdateWinner,
         HasWinner;
    if t.ApplyRuleTo? || t.OptimizeInputs? { InputsOlder(c.memo, t.expr); }
    if t.ApplyRuleTo? && !IsFired(c.fired, t.expr, t.rule) { FiringAdds(c, t.rule, t.expr, t.exploring); }
  }

  lemma SeedKept(c: Core, t: Task, g: GroupId)
    requires MemoOk(c.memo) && TaskOk(c.memo, t) && g in c.memo.groups && SeedOk(c, g)
    ensures SeedOk(Exec(c, t).0, g)
  {
    hide MemoOk, ExecGroup, ExecApply, ExecInputs, RuleTasks, ExecExplore, IsPhysical, TaskOk;
    ExecOk(c, t);
    MarksOf(c, t);
    PhysicalStays(c.memo, Exec(c, t).0.memo, g);
    if t.ApplyRuleTo? && t.expr == g - 1 && !IsFired(c.fired, t.expr, t.rule) {
      FiringPromises(c, t.rule, t.expr, t.exploring, g);
    }
  }

  lemma PhysicalStays(m: Memo, m': Memo, g: GroupId)
    requires Grows(m, m') && g in m.groups
    ensures HasPhysical(m, g) ==> HasPhysical(m', g)
  {
  }

  lemma ReadyStays(c: Core, t: Task, u: Task, above: seq<Task>)
    requires MemoOk(c.memo) && TaskOk(c.memo, t) && SeedsOk(c) && TaskOk(c.memo, u) && Ready(c, u, above + [t])
    ensures Ready(Exec(c, t).0, u, above + Exec(c, t).1)
  {
    hide MemoOk, Exec, SeedOk, Promised;
    ExecOk(c, t);
    if u.OptimizeInputs? && u.from.Some? {
      InputsOlder(c.memo, u.expr);
      var gs, k := c.memo.nodes[u.expr].children, u.from.value;
      WinnersStay(c.memo, Exec(c, t).0.memo, gs);
      if k.returned && k.nextGroupIdx < |gs| { PromiseKept(c, t, above, gs[k.nextGroupIdx]); }
      NodeStays(c.memo, Exec(c, t).0.memo, u.expr);
    }
  }

  lemma WinnersStay(m: Memo, m': Memo, gs: seq<GroupId>)
    requires Grows(m, m') && forall i :: 0 <= i < |gs| ==> gs[i] in m.groups
    ensures forall i :: 0 <= i < |gs| ==> HasWinner(m, gs[i]) ==> HasWinner(m', gs[i])
  {
  }

  lemma NodeStays(m: Memo, m': Memo, e: ExprId)
    requires Grows(m, m') && e in m.nodes
    ensures e in m'.nodes && m'.nodes[e] == m.nodes[e]
  {
  }

  /** An inputs task only moves past an input that has a winner. */
  lemma InputsPushReady(c: Core, e: ExprId, from: Option<Continue>, pruning: bool)
    requires MemoOk(c.memo) && e in c.memo.nodes && Ready(c, OptimizeInputs(e, from, pruning), [])
    ensures var (c', ts) := ExecInputs(c, e, from, pruning); StackReady(c', ts)
  {
    hide MemoOk, InputCosts, SumFrom, WithWinner, HasWinner, IsUpdateWinner, Promises;
    var gs := c.memo.nodes[e].children;
    if from.Some? && from.value.nextGroupIdx < |gs| {
      var k := from.value;
      var g := gs[k.nextGroupIdx];
      if !HasWinner(c.memo, g) && !k.returned {
        var back := OptimizeInputs(e, Some(k.(returned := true)), pruning);
        assert [back, OptimizeGroup(g)][1..] == [OptimizeGroup(g)];
        PromisesItself(c, g);
        assert Ready(c, back, [OptimizeGroup(g)]);
      }
    }
  }

  lemma PromisesItself(c: Core, g: GroupId)
    ensures Promised(c, g, [OptimizeGroup(g)])
  {
    assert OptimizeGroup(g) in [OptimizeGroup(g)];
  }

  /** The other tasks push no inputs task that is under way. */
  ghost predicate NotUnderWay(ts: seq<Task>) {
    forall j :: 0 <= j < |ts| ==> ts[j].OptimizeInputs? ==> ts[j].from == None
  }

  lemma {:induction false} ExprTasksFresh(m: Memo, exprs: seq<ExprId>, exploring: bool)
    ensures NotUnderWay(ExprTasks(m, exprs, exploring)) && NotUnderWay(InputTasks(m, exprs))
  {
    hide IsLogical, IsPhysical;
    if exprs != [] { ExprTasksFresh(m, exprs[1..], exploring); }
  }

  lemma {:induction false} ExploreTasksFresh(gs: seq<GroupId>)
    ensures NotUnderWay(ExploreTasks(gs))
  {
    if gs != [] { ExploreTasksFresh(gs[1..]); }
  }

  lemma {:induction false} RuleTasksFresh(c: Core, e: ExprId, exploring: bool, r: RuleId)
    requires r <= |RULES|
    ensures NotUnderWay(RuleTasks(c, e, exploring, r))
    decreases |RULES| - r
  {
    hide ExploreTasks, TopMatches, MatcherOf, RuleTasks;
    RuleTasksStep(c, e, exploring, r);
    if r < |RULES| {
      ExploreTasksFresh(NodeAt(c.memo, e).children);
      assert NotUnderWay(TasksOfRule(c, e, exploring, r));
      RuleTasksFresh(c, e, exploring, r + 1);
    }
  }

  lemma PushedFresh(c: Core, t: Task)
    requires MemoOk(c.memo) && TaskOk(c.memo, t) && !t.OptimizeInputs?
    ensures NotUnderWay(Exec(c, t).1)
  {
    hide MemoOk, ExprTasks, InputTasks, RuleTasks, ExecApply, TopMatches, MatcherOf;
    match t {
      case OptimizeGroup(g) => ExprTasksFresh(c.memo, ExprsInGroup(c.memo, g), false);
      case ExploreGroup(g) => ExprTasksFresh(c.memo, ExprsInGroup(c.memo, g), true);
      case OptimizeExpr(e, exploring) => RuleTasksFresh(c, e, exploring, 0);
      case ApplyRuleTo(r, e, exploring) =>
        if !IsFired(c.fired, e, r) { FiringAdds(c, r, e, exploring); } else { ApplyOk(c, r, e, exploring); }
      case OptimizeInputs(_, _, _) =>
    }
  }

  lemma FreshIsReady(c: Core, ts: seq<Task>)
    requires NotUnderWay(ts)
    ensures StackReady(c, ts)
  {
  }

  lemma PushedReady(c: Core, t: Task)
    requires MemoOk(c.memo) && TaskOk(c.memo, t) && Ready(c, t, [])
    ensures StackReady(Exec(c, t).0, Exec(c, t).1)
  {
    hide MemoOk, ExecGroup, ExecApply, ExecInputs, ExecExplore, RuleTasks, StackReady, Ready, NotUnderWay;
    if t.OptimizeInputs? {
      InputsPushReady(c, t.expr, t.from, t.pruning);
    } else {
      PushedFresh(c, t);
      FreshIsReady(Exec(c, t).0, Exec(c, t).1);
    }
  }

  /** A group gets its winner only when all inputs have theirs. */
  lemma WinnersKept(c: Core, t: Task, g: GroupId)
    requires MemoOk(c.memo) && TaskOk(c.memo, t) && Ready(c, t, []) && g in c.memo.groups && WinnerInputsOk(c.memo, g)
    ensures WinnerInputsOk(Exec(c, t).0.memo, g)
  {
    hide MemoOk, ExecGroup, RuleTasks, SumFrom, InputCosts, ApplyToAll, Bindings, HasWinner, ExprTasks, IsUpdateWinner,
         IsPhysical, Promised;
    ExecOk(c, t);
    var m, m' := c.memo, Exec(c, t).0.memo;
    if t.ApplyRuleTo? && !IsFired(c.fired, t.expr, t.rule) { FiringAdds(c, t.rule, t.expr, t.exploring); }
    if GroupAt(m', g).winner.Some? {
      var e := GroupAt(m', g).winner.value.expr;
      if GroupAt(m', g).winner == GroupAt(m, g).winner {
        InputsOlder(m, e);
      } else {
        assert t.OptimizeInputs? && t.from.Some? && e == t.expr;
        InputsOlder(m, e);
      }
      WinnersStay(m, m', m.nodes[e].children);
      NodeStays(m, m', e);
    }
  }

  // ---- the invariant -------------------------------------------------------

  /** Every step keeps it. */
  lemma StepKeepsReady(s: OptState, top: GroupId)
    requires StateOk(s) && AllReady(s, top)
    ensures AllReady(Step(s), top)
  {
    hide MemoOk, Exec, TaskOk, SeedOk, Promised, Ready, WinnerInputsOk, Grows;
    if s.tasks != [] {
      var n := |s.tasks| - 1;
      var c, t, us := s.core, s.tasks[n], s.tasks[..n];
      var (c', ts) := Exec(c, t);
      assert s.tasks == us + [t] && s.tasks[n + 1..] == [];
      GroupsStay(c, t);
      forall g | g in c'.memo.groups ensures SeedOk(c', g) && WinnerInputsOk(c'.memo, g) {
        SeedKept(c, t, g);
        WinnersKept(c, t, g);
      }
      PromiseKept(c, t, us, top);
      PushedReady(c, t);
      StackStaysReady(c, t, us);
    }
  }

  lemma StackStaysReady(c: Core, t: Task, us: seq<Task>)
    requires MemoOk(c.memo) && SeedsOk(c) && TasksOk(c.memo, us) && TaskOk(c.memo, t)
    requires StackReady(c, us + [t]) && StackReady(Exec(c, t).0, Exec(c, t).1)
    ensures StackReady(Exec(c, t).0, us + Exec(c, t).1)
  {
    hide MemoOk, Exec, TaskOk, SeedsOk, Ready;
    var (c', ts) := Exec(c, t);
    forall j | 0 <= j < |us + ts| ensures Ready(c', (us + ts)[j], (us + ts)[j + 1..]) {
      if j < |us| {
        assert (us + [t])[j + 1..] == us[j + 1..] + [t] && (us + ts)[j + 1..] == us[j + 1..] + ts;
        assert Ready(c, (us + [t])[j], (us + [t])[j + 1..]) && TaskOk(c.memo, us[j]);
        ReadyStays(c, t, us[j], us[j + 1..]);
      } else {
        assert (us + ts)[j + 1..] == ts[j - |us| + 1..];
      }
    }
  }

  lemma {:induction false} StepsKeepReady(s: OptState, top: GroupId, n: nat)
    requires StateOk(s) && AllReady(s, top)
    ensures StateOk(Steps(s, n)) && AllReady(Steps(s, n), top)
    decreases n
  {
    hide StateOk, AllReady, Step, Grows;
    if n > 0 {
      StepKeepsOk(s);
      StepKeepsReady(s, top);
      StepsKeepReady(Step(s), top, n - 1);
    }
  }

  // ---- the start -----------------------------------------------------------

  lemma {:induction false} ConvertibleAreLogical(t: Plan)
    requires AllConvertible(t)
    ensures AllLogical(t)
  {
    forall i | 0 <= i < |t.inputs| ensures AllLogical(t.inputs[i]) { ConvertibleAreLogical(t.inputs[i]); }
  }

  /** Right after a plan was entered: opening expressions everywhere, winners nowhere. */
  ghost predicate Opened(m: Memo) {
    forall g :: g in m.groups ==>
      && g > 0 && g - 1 in m.nodes && Convertible(m.nodes[g - 1].op)
      && g - 1 in m.groups[g].exprs && m.groups[g].winner == None
  }

  lemma {:induction false} EnteredOpened(m: Memo, t: Plan)
    requires Opened(m) && Bounded(OfMemo(m)) && AllConvertible(t)
    ensures Opened(Entered(m, t))
    decreases t
  {
    hide Opened, Bounded, Size, GroupIds, Convertible;
    EnteredAllOpened(m, t.inputs);
    EnteredAllFrame(m, t.inputs);
    WithGroupOpened(EnteredAll(m, t.inputs), MemoNode(t.op, GroupIds(t.inputs, m.counter)));
  }

  lemma {:induction false} EnteredAllOpened(m: Memo, ts: seq<Plan>)
    requires Opened(m) && Bounded(OfMemo(m)) && forall i :: 0 <= i < |ts| ==> AllConvertible(ts[i])
    ensures Opened(EnteredAll(m, ts))
    decreases ts
  {
    hide Opened, Bounded, Size, Entered, AllConvertible, Extends;
    if ts != [] {
      EnteredOpened(m, ts[0]);
      EnteredFrame(m, ts[0]);
      EnteredAllOpened(Entered(m, ts[0]), ts[1..]);
    }
  }

  lemma WithGroupOpened(m: Memo, node: MemoNode)
    requires Opened(m) && Bounded(OfMemo(m)) && Convertible(node.op)
    ensures Opened(WithGroup(m, node))
  {
  }

  /** In every state of the run on a convertible plan, the inputs of every winner have
      winners, and the group asked for has one or is sure to get one. */
  lemma EveryStateReady(t: Plan, n: nat)
    requires AllConvertible(t)
    ensures AllReady(Steps(OptState(Initial(t), [OptimizeGroup(2 * Size(t))]), n), 2 * Size(t))
  {
    hide Steps, MemoOk, Entered, Size, Opened, AllConvertible, AllLogical, Promised, Bounded, StateOk, AllReady, Grows;
    var m, top := Entered(EMPTY_MEMO, t), 2 * Size(t);
    var s := OptState(Initial(t), [OptimizeGroup(top)]);
    ConvertibleAreLogical(t);
    EveryStateOk(t, 0);
    NoSteps(s);
    StartReady(t);
    StepsKeepReady(s, top, n);
  }

  lemma StartReady(t: Plan)
    requires AllConvertible(t)
    ensures AllReady(OptState(Initial(t), [OptimizeGroup(2 * Size(t))]), 2 * Size(t))
  {
    hide MemoOk, Entered, Size, AllConvertible, AllLogical, Promised;
    EmptyOk();
    ConvertibleAreLogical(t);
    EnteredOk(EMPTY_MEMO, t);
    EnteredOpened(EMPTY_MEMO, t);
    PromisesItself(Initial(t), 2 * Size(t));
  }

  /** With that, a plan can be read from every group that has a winner, at any time. */
  lemma {:induction false} WinnersReadable(m: Memo, g: GroupId)
    requires MemoOk(m) && WinnersOk(m) && g in m.groups && HasWinner(m, g)
    ensures BestPlan(m, g).Some?
    decreases g, 1, 0
  {
    hide IdsOk, MembersOk, NodeOk, WinnerOk, BestPlans;
    assert WinnerInputsOk(m, g);
    var e := m.groups[g].winner.value.expr;
    WinnerOlder(m, g);
    InputsReadable(m, m.nodes[e].children, g);
  }

  lemma WinnerOlder(m: Memo, g: GroupId)
    requires MemoOk(m) && g in m.groups && HasWinner(m, g)
    ensures var e := m.groups[g].winner.value.expr;
            && e in m.nodes
            && forall i :: 0 <= i < |m.nodes[e].children| ==>
                 m.nodes[e].children[i] in m.groups && m.nodes[e].children[i] < g
  {
  }

  lemma {:induction false} InputsReadable(m: Memo, gs: seq<GroupId>, bound: GroupId)
    requires MemoOk(m) && WinnersOk(m)
    requires forall i :: 0 <= i < |gs| ==> gs[i] in m.groups && gs[i] < bound && HasWinner(m, gs[i])
    ensures BestPlans(m, gs, bound).Some?
    decreases bound, 0, |gs|
  {
    hide MemoOk, WinnersOk, BestPlan, HasWinner;
    if gs != [] {
      WinnersReadable(m, gs[0]);
      InputsReadable(m, gs[1..], bound);
    }
  }

  /** Whenever the stack is empty, the plan of the group asked for can be read. */
  lemma EmptyStackHasPlan(t: Plan, n: nat)
    requires AllConvertible(t)
    ensures var s := Steps(OptState(Initial(t), [OptimizeGroup(2 * Size(t))]), n);
            s.tasks == [] ==> BestPlan(s.core.memo, 2 * Size(t)).Some?
  {
    hide Steps, MemoOk, Entered, Size, AllConvertible, AllLogical, SeedsOk, WinnersOk, BestPlan, HasWinner;
    ConvertibleAreLogical(t);
    EveryStateOk(t, n);
    EveryStateReady(t, n);
    var s := Steps(OptState(Initial(t), [OptimizeGroup(2 * Size(t))]), n);
    if s.tasks == [] { WinnersReadable(s.core.memo, 2 * Size(t)); }
  }
}
