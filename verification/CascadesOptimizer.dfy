/** The optimizer: rule bookkeeping, the tasks, and the loop over the task stack. */
module CascadesOptimizer {
  import opened Options
  import opened RelPlan
  import opened CascadesModel
  import opened CascadesRun
  import opened CascadesInv
  import CascadesMemo

  class Cascades {
    const logicalPlan: Plan
    const memo: CascadesMemo.Memo
    const rules: seq<Rule>
    var tasks: seq<Task>
    var firedRules: map<ExprId, set<RuleId>>
    var disabledRules: set<RuleId>
    var exploredGroups: set<GroupId>

    ghost function State(): Core
      reads this, memo
    {
      Core(memo.State(), firedRules, exploredGroups)
    }

    ghost predicate Valid()
      reads this, memo
    {
      MemoOk(memo.State()) && memo.Valid() && rules == RULES && disabledRules == {}
    }

    constructor (plan: Plan)
      ensures Valid() && tasks == [] && State() == OfMemo(EMPTY_MEMO) && logicalPlan == plan && fresh(memo)
    {
      logicalPlan := plan;
      memo := new CascadesMemo.Memo();
      rules := RULES;
      tasks, firedRules, disabledRules, exploredGroups := [], map[], {}, {};
      new;
      EmptyOk();
    }

    // ---- finding the bindings of a rule --------------------------------------

    method MatchAndPick(node: MemoNode, matcher: RuleMatcher) returns (picks: seq<Plan>)
      requires Valid()
      ensures picks == Bindings(memo.State(), node, matcher)
      decreases matcher, 0
    {
      match matcher {
        case MatchAndPickNode(ty, children) =>
          if TypeOf(node.op) != ty { return []; }
          picks := MatchNodeInner(node, true, children);
        case MatchNode(ty, children) =>
          if TypeOf(node.op) != ty { return []; }
          picks := MatchNodeInner(node, false, children);
          assert picks + [] == picks;
        case _ =>
          picks := [];
      }
    }

    /** The bindings found below, and the node itself over placeholders when asked for. */
    method MatchNodeInner(node: MemoNode, pick: bool, matchers: seq<RuleMatcher>) returns (picks: seq<Plan>)
      requires Valid()
      ensures picks == InnerBindings(memo.State(), node, matchers, 0)
                       + if pick then [Plan(node.op, Holders(node.children))] else []
      decreases matchers, |matchers| + 1
    {
      hide MemoOk, Bindings, GroupBindings;
      picks := [];
      var i := 0;
      while i < |matchers|
        invariant 0 <= i <= |matchers|
        invariant picks + InnerBindings(memo.State(), node, matchers, i) == InnerBindings(memo.State(), node, matchers, 0)
      {
        ghost var rest := InnerBindings(memo.State(), node, matchers, i + 1);
        var found := [];
        if (matchers[i].MatchAndPickNode? || matchers[i].MatchNode?) && i < |node.children| {
          found := MatchAndPickGroup(node.children[i], matchers[i]);
        }
        assert InnerBindings(memo.State(), node, matchers, i) == found + rest;
        assert picks + (found + rest) == (picks + found) + rest;
        picks := picks + found;
        i := i + 1;
      }
      assert picks + [] == picks;
      if pick {
        var inputs := HoldersOf(node.children);
        picks := picks + [Plan(node.op, inputs)];
      }
    }

    method MatchAndPickGroup(g: GroupId, matcher: RuleMatcher) returns (picks: seq<Plan>)
      requires Valid()
      ensures picks == GroupBindings(memo.State(), ExprsInGroup(memo.State(), g), matcher)
      decreases matcher, 1
    {
      hide MemoOk, Bindings;
      var exprs := memo.GetAllExprsInGroup(g);
      KnownMembers(memo.State(), g);
      picks := [];
      var i := 0;
      assert exprs[0..] == exprs;
      while i < |exprs|
        invariant 0 <= i <= |exprs|
        invariant picks + GroupBindings(memo.State(), exprs[i..], matcher) == GroupBindings(memo.State(), exprs, matcher)
      {
        ghost var rest := exprs[i..];
        assert rest[0] == exprs[i] && rest[1..] == exprs[i + 1..];
        var node := memo.GetExprMemoNode(exprs[i]);
        var found := MatchAndPick(node, matcher);
        assert picks + (found + GroupBindings(memo.State(), rest[1..], matcher))
               == (picks + found) + GroupBindings(memo.State(), rest[1..], matcher);
        picks := picks + found;
        i := i + 1;
      }
      assert exprs[i..] == [] && picks + [] == picks;
    }

    // ---- the tasks -----------------------------------------------------------

    method ExecuteOptimizeGroup(g: GroupId) returns (ts: seq<Task>)
      requires Valid() && g in memo.groups
      modifies memo`groups
      ensures Valid() && Exec(old(State()), OptimizeGroup(g)) == (State(), ts)
    {
      hide MemoOk, ExprTasks, InputTasks, ExprsInGroup;
      var winner := memo.GetWinner(g);
      if winner != None { return []; }
      var exprs := memo.GetAllExprsInGroup(g);
      KnownMembers(memo.State(), g);
      var logical := LogicalTasks(exprs, false);
      var physical := PhysicalTasks(exprs);
      ts := logical + physical;
    }

    method LogicalTasks(exprs: seq<ExprId>, exploring: bool) returns (ts: seq<Task>)
      requires forall i :: 0 <= i < |exprs| ==> exprs[i] in memo.exprToNode
      ensures ts == ExprTasks(memo.State(), exprs, exploring)
    {
      hide IsLogical, NodeAt;
      ts := [];
      var i := 0;
      assert exprs[0..] == exprs;
      while i < |exprs|
        invariant 0 <= i <= |exprs|
        invariant ts + ExprTasks(memo.State(), exprs[i..], exploring) == ExprTasks(memo.State(), exprs, exploring)
      {
        ghost var rest := exprs[i..];
        assert rest[0] == exprs[i] && rest[1..] == exprs[i + 1..];
        ghost var more := ExprTasks(memo.State(), rest[1..], exploring);
        var node := memo.GetExprMemoNode(exprs[i]);
        if IsLogical(node.op) {
          assert ts + ([OptimizeExpr(exprs[i], exploring)] + more) == (ts + [OptimizeExpr(exprs[i], exploring)]) + more;
          ts := ts + [OptimizeExpr(exprs[i], exploring)];
        } else {
          assert [] + more == more;
        }
        i := i + 1;
      }
      assert exprs[i..] == [] && ts + [] == ts;
    }

    method PhysicalTasks(exprs: seq<ExprId>) returns (ts: seq<Task>)
      requires forall i :: 0 <= i < |exprs| ==> exprs[i] in memo.exprToNode
      ensures ts == InputTasks(memo.State(), exprs)
    {
      hide IsPhysical, NodeAt;
      ts := [];
      var i := 0;
      assert exprs[0..] == exprs;
      while i < |exprs|
        invariant 0 <= i <= |exprs|
        invariant ts + InputTasks(memo.State(), exprs[i..]) == InputTasks(memo.State(), exprs)
      {
        ghost var rest := exprs[i..];
        assert rest[0] == exprs[i] && rest[1..] == exprs[i + 1..];
        ghost var more := InputTasks(memo.State(), rest[1..]);
        var node := memo.GetExprMemoNode(exprs[i]);
        if IsPhysical(node.op) {
          assert ts + ([OptimizeInputs(exprs[i], None, true)] + more) == (ts + [OptimizeInputs(exprs[i], None, true)]) + more;
          ts := ts + [OptimizeInputs(exprs[i], None, true)];
        } else {
          assert [] + more == more;
        }
        i := i + 1;
      }
      assert exprs[i..] == [] && ts + [] == ts;
    }

    method ExecuteOptimizeExpr(e: ExprId, exploring: bool) returns (ts: seq<Task>)
      requires Valid() && e in memo.exprToNode
      ensures Exec(State(), OptimizeExpr(e, exploring)) == (State(), ts)
    {
      hide MemoOk, TopMatches, MatcherOf, ExploreTasks, RuleTasks;
      var node := memo.GetExprMemoNode(e);
      ts := [];
      var r := 0;
      while r < |rules|
        invariant 0 <= r <= |rules| == |RULES|
        invariant ts + RuleTasks(State(), e, exploring, r) == RuleTasks(State(), e, exploring, 0)
      {
        RuleTasksStep(State(), e, exploring, r);
        ghost var was, these, more := ts, TasksOfRule(State(), e, exploring, r), RuleTasks(State(), e, exploring, r + 1);
        if !IsRuleFired(e, r) && !exploring && TopMatches(MatcherOf(rules[r]), node.op) {
          var inputs := ExplorationOf(node.children);
          ts := ts + [ApplyRuleTo(r, e, exploring)];
          ts := ts + inputs;
          Regroup(was, [ApplyRuleTo(r, e, exploring)], inputs);
        }
        Regroup(was, these, more);
        r := r + 1;
      }
      RuleTasksStep(State(), e, exploring, r);
      assert ts + [] == ts;
    }

    predicate IsRuleFired(e: ExprId, r: RuleId)
      reads this
    {
      IsFired(firedRules, e, r)
    }

    method ExecuteExploreGroup(g: GroupId) returns (ts: seq<Task>)
      requires Valid()
      modifies `exploredGroups
      ensures Valid() && Exec(old(State()), ExploreGroup(g)) == (State(), ts)
    {
      hide MemoOk, ExprTasks, ExprsInGroup;
      if g in exploredGroups { return []; }
      var exprs := memo.GetAllExprsInGroup(g);
      KnownMembers(memo.State(), g);
      ts := LogicalTasks(exprs, true);
      exploredGroups := exploredGroups + {g};
    }

    /** Applies a rule to an expression it matches, unless it was applied before. */
    method ExecuteApplyRule(r: RuleId, e: ExprId, exploring: bool) returns (ts: seq<Task>)
      requires Valid() && TaskOk(memo.State(), ApplyRuleTo(r, e, exploring))
      modifies `firedRules, memo
      ensures Valid() && Exec(old(State()), ApplyRuleTo(r, e, exploring)) == (State(), ts)
    {
      hide MemoOk, Bindings, ApplyToAll, WithExpr;
      ApplyOk(State(), r, e, exploring);
      if IsRuleFired(e, r) { return []; }
      InputsOlder(memo.State(), e);
      var group := memo.GetGroupId(e);
      var node := memo.GetExprMemoNode(e);
      var bindings := MatchAndPick(node, MatcherOf(rules[r]));
      BindingsOf(memo.State(), node, rules[r]);
      ts := AddApplied(rules[r], group.value, bindings, exploring);
      firedRules := MarkFired(firedRules, e, r);
    }

    /** Adds what the rule makes of every binding to the group. */
    method AddApplied(rule: Rule, g: GroupId, bindings: seq<Plan>, exploring: bool) returns (ts: seq<Task>)
      requires memo.Valid()
      requires forall i :: 0 <= i < |bindings| ==> MatcherOf(rule).nodeType == TypeOf(bindings[i].op)
      modifies memo
      ensures memo.Valid() && ApplyToAll(old(memo.State()), rule, g, bindings, exploring) == (memo.State(), ts)
    {
      hide WithExpr, HeldGroups, MatcherOf, ApplyRule, IsLogical, TypeOf;
      ts := [];
      var i := 0;
      ghost var all := ApplyToAll(memo.State(), rule, g, bindings, exploring);
      assert bindings[0..] == bindings;
      assert [] + all.1 == all.1;
      while i < |bindings|
        invariant 0 <= i <= |bindings| && memo.Valid()
        invariant ApplyToAll(memo.State(), rule, g, bindings[i..], exploring).0 == all.0
        invariant ts + ApplyToAll(memo.State(), rule, g, bindings[i..], exploring).1 == all.1
      {
        ghost var m, rest := memo.State(), bindings[i..];
        assert rest[0] == bindings[i] && rest[1..] == bindings[i + 1..];
        var applied := ConvertBinding(rule, bindings[i]);
        var _, e := memo.AddNewGroupExpr(applied, Some(g));
        CounterOf(m, MemoNode(applied.op, HeldGroups(applied.inputs)), g);
        ghost var more := ApplyToAll(memo.State(), rule, g, rest[1..], exploring).1;
        var task := if IsLogical(applied.op) then OptimizeExpr(e, exploring) else OptimizeInputs(e, None, true);
        assert ts + ([task] + more) == (ts + [task]) + more;
        ts := ts + [task];
        i := i + 1;
      }
      assert bindings[i..] == [] && ts + [] == ts;
    }

    // ---- the inputs task -----------------------------------------------------

    /** Asks for the inputs one after the other, and then makes the expression the winner
        of its group if it is the first or the cheapest. */
    method ExecuteOptimizeInputs(e: ExprId, from: Option<Continue>, pruning: bool) returns (ts: seq<Task>)
      requires Valid() && e in memo.exprToNode && IsPhysical(memo.exprToNode[e].op)
      modifies memo`groups
      ensures Valid() && Exec(old(State()), OptimizeInputs(e, from, pruning)) == (State(), ts)
    {
      hide MemoOk, InputCosts, SumFrom, IsPhysical, WithWinner;
      InputsOk(State(), e, from, pruning);
      InputsOlder(memo.State(), e);
      var node := memo.GetExprMemoNode(e);
      if from == None {
        var costs := FirstInvoke(node.children);
        return [OptimizeInputs(e, Some(Continue(0, costs, false)), pruning)];
      }
      var k := from.value;
      if k.nextGroupIdx < |node.children| {
        var g := node.children[k.nextGroupIdx];
        var winner := memo.GetWinner(g);
        if (winner == None || winner.value.impossible) && !k.returned {
          return [OptimizeInputs(e, Some(k.(returned := true)), pruning), OptimizeGroup(g)];
        }
        return [OptimizeInputs(e, Some(Continue(k.nextGroupIdx + 1, k.inputCost, false)), pruning)];
      }
      var group := memo.GetGroupId(e);
      var cost := Sum(ZERO_COST, k.inputCost);
      var update := IsUpdateWinner(cost, group.value);
      if update {
        memo.UpdateWinner(group.value, Winner(false, e, cost));
      }
      ts := [];
    }

    method FirstInvoke(children: seq<GroupId>) returns (costs: seq<Cost>)
      requires forall i :: 0 <= i < |children| ==> children[i] in memo.groups
      modifies memo`groups
      ensures memo.State() == old(memo.State()) && costs == InputCosts(memo.State(), children)
    {
      ghost var m := memo.State();
      costs := [];
      var i := 0;
      assert children[0..] == children;
      while i < |children|
        invariant 0 <= i <= |children| && memo.State() == m
        invariant costs + InputCosts(m, children[i..]) == InputCosts(m, children)
      {
        ghost var rest := children[i..];
        assert rest[0] == children[i] && rest[1..] == children[i + 1..];
        ghost var more := InputCosts(m, rest[1..]);
        var winner := memo.GetWinner(children[i]);
        var cost := if winner.Some? && !winner.value.impossible then winner.value.cost else ZERO_COST;
        assert costs + ([cost] + more) == (costs + [cost]) + more;
        costs := costs + [cost];
        i := i + 1;
      }
      assert children[i..] == [] && costs + [] == costs;
    }

    method IsUpdateWinner(cost: Cost, g: GroupId) returns (update: bool)
      requires g in memo.groups
      modifies memo`groups
      ensures memo.State() == old(memo.State()) && update == CascadesModel.IsUpdateWinner(memo.State(), cost, g)
    {
      var winner := memo.GetWinner(g);
      update := winner == None || winner.value.impossible || Estimate(winner.value.cost) > Estimate(cost);
    }

    // ---- the stack -----------------------------------------------------------

    method Execute(task: Task) returns (ts: seq<Task>)
      requires Valid() && TaskOk(memo.State(), task)
      modifies `firedRules, `exploredGroups, memo
      ensures Valid() && Exec(old(State()), task) == (State(), ts)
    {
      hide MemoOk, Exec;
      match task {
        case OptimizeGroup(g) => ts := ExecuteOptimizeGroup(g);
        case OptimizeExpr(e, exploring) => ts := ExecuteOptimizeExpr(e, exploring);
        case ApplyRuleTo(r, e, exploring) => ts := ExecuteApplyRule(r, e, exploring);
        case ExploreGroup(g) => ts := ExecuteExploreGroup(g);
        case OptimizeInputs(e, from, pruning) => ts := ExecuteOptimizeInputs(e, from, pruning);
      }
    }

    /** Executes the task of the top group and everything it leads to. The stack empties,
        and what the memo then holds is what the plan determines. */
    method FireOptimizeTask(g: GroupId)
      requires Valid() && tasks == []
      requires AllLogical(logicalPlan) && State() == Initial(logicalPlan) && g == 2 * Size(logicalPlan)
      modifies this, memo
      ensures Valid() && tasks == []
      ensures OptState(State(), tasks) == Steps(OptState(Initial(logicalPlan), [OptimizeGroup(g)]), StepCount(logicalPlan))
    {
      hide MemoOk, Exec, Steps, Size, Entered, StepCount, AllLogical, BestPlan, AllConvertible;
      tasks := [OptimizeGroup(g)];
      ghost var start, n, k := OptState(State(), tasks), StepCount(logicalPlan), 0;
      ghost var end := OptimizerRun(logicalPlan);
      EveryStateOk(logicalPlan, 0);
      NoSteps(start);
      while |tasks| > 0
        invariant k <= n && Valid()
        invariant OptState(State(), tasks) == Steps(start, k) && StateOk(OptState(State(), tasks))
        decreases n - k
      {
        ghost var s := OptState(State(), tasks);
        StepKeepsOk(s);
        NotYetEmpty(start, k, n, OptState(end, []));
        var task := tasks[|tasks| - 1];
        var pushed := Execute(task);
        tasks := tasks[..|tasks| - 1];
        tasks := tasks + pushed;
        StepsAdd(start, k, 1);
        OneStep(s);
        k := k + 1;
      }
      StepsAdd(start, k, n - k);
      EmptyStays(OptState(State(), tasks), n - k);
    }

    /** The best physical plan for the logical plan, read from the memo. */
    method FindBestExp() returns (best: Option<Plan>)
      requires Valid() && tasks == [] && State() == OfMemo(EMPTY_MEMO) && AllLogical(logicalPlan)
      modifies this, memo
      ensures best == if AllConvertible(logicalPlan) then Some(PhysicalPlan(logicalPlan)) else None
    {
      hide MemoOk, Steps, Size, Entered, StepCount, AllLogical, BestPlan, AllConvertible, PhysicalPlan;
      EnteredOk(EMPTY_MEMO, logicalPlan);
      var group, _ := memo.InitMemo(logicalPlan);
      FireOptimizeTask(group);
      TopGroupKnown(logicalPlan, StepCount(logicalPlan));
      var _ := OptimizerRun(logicalPlan);
      best := memo.GetBestPlan(group);
    }
  }

  lemma KnownMembers(m: CascadesModel.Memo, g: GroupId)
    requires MemoOk(m)
    ensures forall i :: 0 <= i < |ExprsInGroup(m, g)| ==> ExprsInGroup(m, g)[i] in m.nodes
  {
    hide MemoOk, ExprsInGroup;
    if g in m.groups {
      MembersKnown(m, g);
    } else {
      NoMembers(m, g);
    }
  }

  lemma NoMembers(m: CascadesModel.Memo, g: GroupId)
    requires g !in m.groups
    ensures ExprsInGroup(m, g) == []
  {
  }

  /** The stack is not empty before the run is over. */
  lemma NotYetEmpty(start: OptState, k: nat, n: nat, end: OptState)
    requires k <= n && Steps(start, n) == end && end.tasks == [] && Steps(start, k).tasks != []
    ensures k < n
  {
  }

  lemma {:induction false} EmptyStays(s: OptState, n: nat)
    requires s.tasks == []
    ensures Steps(s, n) == s
    decreases n
  {
    hide Exec;
    if n > 0 { EmptyStays(s, n - 1); }
  }

  /** The group asked for is in the memo at the end. */
  lemma TopGroupKnown(t: Plan, n: nat)
    requires AllLogical(t)
    ensures 2 * Size(t) in Steps(OptState(Initial(t), [OptimizeGroup(2 * Size(t))]), n).core.memo.groups
  {
    hide MemoOk, Entered, Size, Steps;
    EmptyOk();
    EnteredOk(EMPTY_MEMO, t);
    StepsKeepOk(OptState(Initial(t), [OptimizeGroup(2 * Size(t))]), n);
  }

  // ---- small loops ---------------------------------------------------------

  method HoldersOf(gs: seq<GroupId>) returns (holders: seq<Plan>)
    ensures holders == Holders(gs)
  {
    holders := [];
    var i := 0;
    assert gs[0..] == gs;
    while i < |gs|
      invariant 0 <= i <= |gs| && holders + Holders(gs[i..]) == Holders(gs)
    {
      ghost var rest := gs[i..];
      assert rest[0] == gs[i] && rest[1..] == gs[i + 1..];
      assert holders + ([Plan(GroupHolder(gs[i]), [])] + Holders(rest[1..]))
             == (holders + [Plan(GroupHolder(gs[i]), [])]) + Holders(rest[1..]);
      holders := holders + [Plan(GroupHolder(gs[i]), [])];
      i := i + 1;
    }
    assert gs[i..] == [] && holders + [] == holders;
  }

  lemma Regroup<T>(a: seq<T>, b: seq<T>, c: seq<T>)
    ensures a + (b + c) == (a + b) + c && a + [] == a
  {
  }

  method ExplorationOf(gs: seq<GroupId>) returns (ts: seq<Task>)
    ensures ts == ExploreTasks(gs)
  {
    ts := [];
    var i := 0;
    assert gs[0..] == gs;
    while i < |gs|
      invariant 0 <= i <= |gs| && ts + ExploreTasks(gs[i..]) == ExploreTasks(gs)
    {
      ghost var rest := gs[i..];
      assert rest[0] == gs[i] && rest[1..] == gs[i + 1..];
      assert ts + ([ExploreGroup(gs[i])] + ExploreTasks(rest[1..])) == (ts + [ExploreGroup(gs[i])]) + ExploreTasks(rest[1..]);
      ts := ts + [ExploreGroup(gs[i])];
      i := i + 1;
    }
    assert gs[i..] == [] && ts + [] == ts;
  }

  /** The new operator over the placeholders of the matched one. */
  method ConvertBinding(rule: Rule, binding: Plan) returns (applied: Plan)
    requires MatcherOf(rule).nodeType == TypeOf(binding.op)
    ensures applied == Plan(ApplyRule(rule, binding.op), binding.inputs)
  {
    applied := Plan(ApplyRule(rule, binding.op), []);
    var i := 0;
    while i < |binding.inputs|
      invariant 0 <= i <= |binding.inputs| && applied == Plan(ApplyRule(rule, binding.op), binding.inputs[..i])
    {
      applied := applied.(inputs := applied.inputs + [binding.inputs[i]]);
      i := i + 1;
    }
  }

  method Sum(local: Cost, inputs: seq<Cost>) returns (total: Cost)
    ensures total == SumFrom(local, inputs)
  {
    total := local;
    var i := 0;
    assert inputs[0..] == inputs;
    while i < |inputs|
      invariant 0 <= i <= |inputs| && SumFrom(total, inputs[i..]) == SumFrom(local, inputs)
    {
      ghost var rest := inputs[i..];
      assert rest[0] == inputs[i] && rest[1..] == inputs[i + 1..];
      total := Accumulate(total, inputs[i]);
      i := i + 1;
    }
    assert inputs[i..] == [];
  }

  /** Planning a query: for every logical plan, of whatever shape and arity, the plan of the
      same shape with every operator replaced by its physical counterpart; and no plan
      exactly when some operator has none. */
  method Optimize(plan: Plan) returns (best: Option<Plan>)
    requires AllLogical(plan)
    ensures best == if AllConvertible(plan) then Some(PhysicalPlan(plan)) else None
    ensures best.Some? ==> SaysSame(plan, best.value)
  {
    var optimizer := new Cascades(plan);
    best := optimizer.FindBestExp();
    if best.Some? { PhysicalSaysSame(plan, best.value); }
  }
}
