/** The optimizer as a value: memo, rule bookkeeping and task stack, and what executing
    one task does to them. The classes of `CascadesOptimizer` refine it. */
module CascadesModel {
  import opened Options
  import opened RelPlan

  type ExprId = nat
  type GroupId = nat
  type RuleId = nat

  datatype Cost = Cost(cpu: real, mem: real, network: real, disk: real)

  const ZERO_COST := Cost(0.0, 0.0, 0.0, 0.0)

  function Accumulate(total: Cost, cost: Cost): Cost {
    Cost(total.cpu + cost.cpu, total.mem + cost.mem, total.network + cost.network, total.disk + cost.disk)
  }

  function Estimate(c: Cost): real { c.cpu + c.mem + c.network + c.disk }

  function SumFrom(total: Cost, inputs: seq<Cost>): Cost
    decreases |inputs|
  {
    if inputs == [] then total else SumFrom(Accumulate(total, inputs[0]), inputs[1..])
  }

  /** The costs of a list, all parts of all of them added up. */
  ghost function TotalOf(costs: seq<Cost>): real {
    if costs == [] then 0.0
    else costs[0].cpu + costs[0].mem + costs[0].network + costs[0].disk + TotalOf(costs[1..])
  }

  lemma {:induction false} SumIsTotal(total: Cost, costs: seq<Cost>)
    ensures var s := SumFrom(total, costs);
            s.cpu + s.mem + s.network + s.disk == total.cpu + total.mem + total.network + total.disk + TotalOf(costs)
    decreases |costs|
  {
    if costs != [] { SumIsTotal(Accumulate(total, costs[0]), costs[1..]); }
  }

  datatype Winner = Winner(impossible: bool, expr: ExprId, cost: Cost)

  datatype MemoNode = MemoNode(op: Operator, children: seq<GroupId>)

  datatype Group = Group(exprs: set<ExprId>, winner: Option<Winner>)

  /** Expressions with their group, groups with their members and winner, and the one
      counter all ids come from. */
  datatype Memo = Memo(nodes: map<ExprId, MemoNode>, groupOf: map<ExprId, GroupId>,
                       groups: map<GroupId, Group>, counter: nat)

  datatype Continue = Continue(nextGroupIdx: nat, inputCost: seq<Cost>, returned: bool)

  datatype Task =
    | OptimizeGroup(group: GroupId)
    | OptimizeExpr(expr: ExprId, exploring: bool)
    | ApplyRuleTo(rule: RuleId, expr: ExprId, exploring: bool)
    | ExploreGroup(group: GroupId)
    | OptimizeInputs(expr: ExprId, from: Option<Continue>, pruning: bool)

  datatype Core = Core(memo: Memo, fired: map<ExprId, set<RuleId>>, explored: set<GroupId>)

  datatype OptState = OptState(core: Core, tasks: seq<Task>)

  // ---- memo ----------------------------------------------------------------

  /** Looking up an unknown group creates an empty one. */
  function GroupAt(m: Memo, g: GroupId): Group {
    if g in m.groups then m.groups[g] else Group({}, None)
  }

  ghost function NodeAt(m: Memo, e: ExprId): MemoNode {
    if e in m.nodes then m.nodes[e] else MemoNode(LogicalResultSet, [])
  }

  function Largest(s: set<nat>): (x: nat)
    requires s != {}
    ensures x in s && forall y :: y in s ==> y <= x
  {
    LargestExists(s);
    var x :| x in s && forall y :: y in s ==> y <= x; x
  }

  lemma {:induction false} LargestExists(s: set<nat>)
    requires s != {}
    ensures exists x :: x in s && forall y :: y in s ==> y <= x
  {
    var a :| a in s;
    if forall y :: y in s ==> y == a {
      assert a in s && forall y :: y in s ==> y <= a;
    } else {
      var z :| z in s && z != a;
      var rest := s - {a};
      assert z in rest;
      LargestExists(rest);
      var b :| b in rest && forall y :: y in rest ==> y <= b;
      var x := if a < b then b else a;
      forall y | y in s ensures y <= x { assert y == a || y in rest; }
      assert x in s;
    }
  }

  /** A set of ids in ascending order. */
  function Ascending(s: set<nat>): seq<nat> {
    if s == {} then [] else Ascending(s - {Largest(s)}) + [Largest(s)]
  }

  lemma {:induction false} AscendingSpec(s: set<nat>)
    ensures forall x :: x in Ascending(s) <==> x in s
    ensures forall i, j :: 0 <= i < j < |Ascending(s)| ==> Ascending(s)[i] < Ascending(s)[j]
  {
    if s != {} {
      var x, t := Largest(s), s - {Largest(s)};
      AscendingSpec(t);
      var r := Ascending(t);
      forall i | 0 <= i < |r| ensures r[i] < x { assert r[i] in t; }
    }
  }

  /** A new id is larger than all others, so it comes last. */
  lemma AscendingNext(s: set<nat>, x: nat)
    requires forall y :: y in s ==> y < x
    ensures Ascending(s + {x}) == Ascending(s) + [x]
  {
    assert Largest(s + {x}) == x;
    assert s + {x} - {x} == s;
  }

  ghost function ExprsInGroup(m: Memo, g: GroupId): seq<ExprId> { Ascending(GroupAt(m, g).exprs) }

  function AddToGroup(groups: map<GroupId, Group>, g: GroupId, e: ExprId): map<GroupId, Group> {
    groups[g := if g in groups then groups[g].(exprs := groups[g].exprs + {e}) else Group({e}, None)]
  }

  /** A new expression with the next id joins the group. */
  ghost function WithExpr(m: Memo, node: MemoNode, g: GroupId): Memo {
    var e := m.counter + 1;
    Memo(m.nodes[e := node], m.groupOf[e := g], AddToGroup(m.groups, g, e), e)
  }

  /** A new expression in a new group: the expression gets the first id, the group the next. */
  ghost function WithGroup(m: Memo, node: MemoNode): Memo {
    var e, g := m.counter + 1, m.counter + 2;
    Memo(m.nodes[e := node], m.groupOf[e := g], AddToGroup(m.groups, g, e), g)
  }

  ghost function WithWinner(m: Memo, g: GroupId, w: Winner): Memo {
    m.(groups := m.groups[g := GroupAt(m, g).(winner := Some(w))])
  }

  /** The groups a list of sub-plans gets when it is entered from counter `base` on. */
  ghost function GroupIds(ts: seq<Plan>, base: nat): (gs: seq<GroupId>)
    ensures |gs| == |ts|
  {
    if ts == [] then [] else [base + 2 * Size(ts[0])] + GroupIds(ts[1..], base + 2 * Size(ts[0]))
  }

  /** Entering a plan bottom-up, left to right. */
  ghost function Entered(m: Memo, t: Plan): (m': Memo)
    ensures m'.counter == m.counter + 2 * Size(t)
    decreases t
  {
    WithGroup(EnteredAll(m, t.inputs), MemoNode(t.op, GroupIds(t.inputs, m.counter)))
  }

  ghost function EnteredAll(m: Memo, ts: seq<Plan>): (m': Memo)
    ensures m'.counter == m.counter + 2 * SizeAll(ts)
    decreases ts
  {
    if ts == [] then m else EnteredAll(Entered(m, ts[0]), ts[1..])
  }

  /** The group ids among placeholder inputs. */
  ghost function HeldGroups(inputs: seq<Plan>): seq<GroupId> {
    if inputs == [] then []
    else (if inputs[0].op.GroupHolder? then [inputs[0].op.group] else []) + HeldGroups(inputs[1..])
  }

  ghost function Holders(gs: seq<GroupId>): (ps: seq<Plan>)
    ensures |ps| == |gs|
  {
    if gs == [] then [] else [Plan(GroupHolder(gs[0]), [])] + Holders(gs[1..])
  }

  lemma {:induction false} HoldersHold(gs: seq<GroupId>)
    ensures HeldGroups(Holders(gs)) == gs
  {
    if gs != [] {
      HoldersHold(gs[1..]);
      assert Holders(gs)[1..] == Holders(gs[1..]);
    }
  }

  // ---- rule bookkeeping ----------------------------------------------------

  predicate IsFired(fired: map<ExprId, set<RuleId>>, e: ExprId, r: RuleId) {
    e in fired && r in fired[e]
  }

  function MarkFired(fired: map<ExprId, set<RuleId>>, e: ExprId, r: RuleId): map<ExprId, set<RuleId>> {
    fired[e := (if e in fired then fired[e] else {}) + {r}]
  }

  predicate TopMatches(matcher: RuleMatcher, op: Operator) {
    match matcher
    case MatchAndPickNode(ty, _) => ty == TypeOf(op)
    case MatchNode(ty, _) => ty == TypeOf(op)
    case _ => false
  }

  /** The bindings a matcher finds at a node: for every match a plan of the matched
      operator over placeholders for its input groups. */
  ghost function Bindings(m: Memo, node: MemoNode, matcher: RuleMatcher): seq<Plan>
    decreases matcher, 0
  {
    match matcher
    case MatchAndPickNode(ty, children) =>
      if ty != TypeOf(node.op) then []
      else InnerBindings(m, node, children, 0) + [Plan(node.op, Holders(node.children))]
    case MatchNode(ty, children) =>
      if ty != TypeOf(node.op) then [] else InnerBindings(m, node, children, 0)
    case _ => []
  }

  ghost function InnerBindings(m: Memo, node: MemoNode, matchers: seq<RuleMatcher>, i: nat): seq<Plan>
    requires i <= |matchers|
    decreases matchers, |matchers| - i
  {
    if i == |matchers| then []
    else
      (if (matchers[i].MatchAndPickNode? || matchers[i].MatchNode?) && i < |node.children|
       then GroupBindings(m, ExprsInGroup(m, node.children[i]), matchers[i]) else [])
      + InnerBindings(m, node, matchers, i + 1)
  }

  ghost function GroupBindings(m: Memo, exprs: seq<ExprId>, matcher: RuleMatcher): seq<Plan>
    decreases matcher, |exprs| + 1
  {
    if exprs == [] then []
    else Bindings(m, NodeAt(m, exprs[0]), matcher) + GroupBindings(m, exprs[1..], matcher)
  }

  // ---- tasks ---------------------------------------------------------------

  ghost function ExprTasks(m: Memo, exprs: seq<ExprId>, exploring: bool): seq<Task> {
    if exprs == [] then []
    else (if IsLogical(NodeAt(m, exprs[0]).op) then [OptimizeExpr(exprs[0], exploring)] else [])
         + ExprTasks(m, exprs[1..], exploring)
  }

  ghost function InputTasks(m: Memo, exprs: seq<ExprId>): seq<Task> {
    if exprs == [] then []
    else (if IsPhysical(NodeAt(m, exprs[0]).op) then [OptimizeInputs(exprs[0], None, true)] else [])
         + InputTasks(m, exprs[1..])
  }

  ghost function ExploreTasks(gs: seq<GroupId>): (ts: seq<Task>)
    ensures |ts| == |gs|
  {
    if gs == [] then [] else [ExploreGroup(gs[0])] + ExploreTasks(gs[1..])
  }

  /** For a rule not yet fired whose matcher fits: the rule, below the exploration of the inputs. */
  ghost function TasksOfRule(c: Core, e: ExprId, exploring: bool, r: RuleId): seq<Task>
    requires r < |RULES|
  {
    if !IsFired(c.fired, e, r) && !exploring && TopMatches(MatcherOf(RULES[r]), NodeAt(c.memo, e).op)
    then [ApplyRuleTo(r, e, exploring)] + ExploreTasks(NodeAt(c.memo, e).children)
    else []
  }

  ghost function RuleTasks(c: Core, e: ExprId, exploring: bool, r: RuleId): seq<Task>
    requires r <= |RULES|
    decreases |RULES| - r
  {
    if r == |RULES| then [] else TasksOfRule(c, e, exploring, r) + RuleTasks(c, e, exploring, r + 1)
  }

  lemma RuleTasksStep(c: Core, e: ExprId, exploring: bool, r: RuleId)
    requires r <= |RULES|
    ensures RuleTasks(c, e, exploring, r) ==
              if r == |RULES| then [] else TasksOfRule(c, e, exploring, r) + RuleTasks(c, e, exploring, r + 1)
  {
  }

  /** Every binding gives one new expression of the group and the task to go on with. */
  ghost function ApplyToAll(m: Memo, rule: Rule, g: GroupId, bindings: seq<Plan>, exploring: bool): (Memo, seq<Task>)
    decreases |bindings|
  {
    if bindings == [] || MatcherOf(rule).nodeType != TypeOf(bindings[0].op) then (m, [])
    else
      var op := ApplyRule(rule, bindings[0].op);
      var m1 := WithExpr(m, MemoNode(op, HeldGroups(bindings[0].inputs)), g);
      var (m2, tasks) := ApplyToAll(m1, rule, g, bindings[1..], exploring);
      (m2, [if IsLogical(op) then OptimizeExpr(m1.counter, exploring) else OptimizeInputs(m1.counter, None, true)] + tasks)
  }

  /** The costs of inputs that already have a possible winner, zero for the others. */
  ghost function InputCosts(m: Memo, gs: seq<GroupId>): seq<Cost> {
    if gs == [] then []
    else [if HasWinner(m, gs[0]) then GroupAt(m, gs[0]).winner.value.cost else ZERO_COST] + InputCosts(m, gs[1..])
  }

  predicate HasWinner(m: Memo, g: GroupId) {
    GroupAt(m, g).winner.Some? && !GroupAt(m, g).winner.value.impossible
  }

  predicate IsUpdateWinner(m: Memo, cost: Cost, g: GroupId) {
    var w := GroupAt(m, g).winner;
    w.None? || w.value.impossible || Estimate(w.value.cost) > Estimate(cost)
  }

  ghost function GroupOf(m: Memo, e: ExprId): GroupId { if e in m.groupOf then m.groupOf[e] else 0 }

  ghost function ExecGroup(c: Core, g: GroupId): seq<Task> {
    var exprs := ExprsInGroup(c.memo, g);
    if GroupAt(c.memo, g).winner.Some? then [] else ExprTasks(c.memo, exprs, false) + InputTasks(c.memo, exprs)
  }

  ghost function ExecApply(c: Core, r: RuleId, e: ExprId, exploring: bool): (Core, seq<Task>)
    requires r < |RULES|
  {
    if IsFired(c.fired, e, r) then (c, [])
    else
      var (m, tasks) := ApplyToAll(c.memo, RULES[r], GroupOf(c.memo, e),
                                   Bindings(c.memo, NodeAt(c.memo, e), MatcherOf(RULES[r])), exploring);
      (Core(m, MarkFired(c.fired, e, r), c.explored), tasks)
  }

  ghost function ExecExplore(c: Core, g: GroupId): (Core, seq<Task>) {
    if g in c.explored then (c, [])
    else (c.(explored := c.explored + {g}), ExprTasks(c.memo, ExprsInGroup(c.memo, g), true))
  }

  ghost function ExecInputs(c: Core, e: ExprId, from: Option<Continue>, pruning: bool): (Core, seq<Task>) {
    var gs := NodeAt(c.memo, e).children;
    match from
    case None => (c, [OptimizeInputs(e, Some(Continue(0, InputCosts(c.memo, gs), false)), pruning)])
    case Some(k) =>
      if k.nextGroupIdx < |gs| then
        var g := gs[k.nextGroupIdx];
        if !HasWinner(c.memo, g) && !k.returned then
          (c, [OptimizeInputs(e, Some(k.(returned := true)), pruning), OptimizeGroup(g)])
        else
          (c, [OptimizeInputs(e, Some(Continue(k.nextGroupIdx + 1, k.inputCost, false)), pruning)])
      else
        var cost := SumFrom(ZERO_COST, k.inputCost);
        var g := GroupOf(c.memo, e);
        if IsUpdateWinner(c.memo, cost, g)
        then (c.(memo := WithWinner(c.memo, g, Winner(false, e, cost))), [])
        else (c, [])
  }

  /** When all inputs of an expression have winners, it becomes the winner of its group exactly when
      the group has none, an impossible one, or one that costs more than the inputs together. */
  lemma WinnerAfterInputs(c: Core, e: ExprId, k: Continue, pruning: bool)
    requires k.nextGroupIdx >= |NodeAt(c.memo, e).children|
    ensures var (c', pushed) := ExecInputs(c, e, Some(k), pruning); var g := GroupOf(c.memo, e);
            var before, after := GroupAt(c.memo, g).winner, GroupAt(c'.memo, g).winner;
            && pushed == []
            && (if before.None? || before.value.impossible
                   || before.value.cost.cpu + before.value.cost.mem + before.value.cost.network + before.value.cost.disk
                      > TotalOf(k.inputCost)
                then after.Some? && !after.value.impossible && after.value.expr == e
                     && after.value.cost.cpu + after.value.cost.mem + after.value.cost.network + after.value.cost.disk
                        == TotalOf(k.inputCost)
                else after == before)
  {
    SumIsTotal(ZERO_COST, k.inputCost);
  }

  /** One task: the new state and the tasks it pushes, the last of them on top. */
  ghost function Exec(c: Core, t: Task): (Core, seq<Task>) {
    match t
    case OptimizeGroup(g) => (c, ExecGroup(c, g))
    case OptimizeExpr(e, exploring) => (c, RuleTasks(c, e, exploring, 0))
    case ApplyRuleTo(r, e, exploring) => if r < |RULES| then ExecApply(c, r, e, exploring) else (c, [])
    case ExploreGroup(g) => ExecExplore(c, g)
    case OptimizeInputs(e, from, pruning) => ExecInputs(c, e, from, pruning)
  }

  ghost function Step(s: OptState): OptState {
    if s.tasks == [] then s
    else
      var n := |s.tasks| - 1;
      var (c, pushed) := Exec(s.core, s.tasks[n]);
      OptState(c, s.tasks[..n] + pushed)
  }

  ghost function Steps(s: OptState, n: nat): OptState
    decreases n
  {
    if n == 0 then s else Steps(Step(s), n - 1)
  }

  /** The best plan of a group: its winner over the best plans of the winner's inputs;
      `None` when a group on the way has no winner to read. */
  ghost function BestPlan(m: Memo, g: GroupId): Option<Plan>
    decreases g, 1, 0
  {
    match GroupAt(m, g).winner
    case None => None
    case Some(w) =>
      var node := NodeAt(m, w.expr);
      match BestPlans(m, node.children, g)
      case None => None
      case Some(inputs) => Some(Plan(node.op, inputs))
  }

  ghost function BestPlans(m: Memo, gs: seq<GroupId>, bound: GroupId): Option<seq<Plan>>
    decreases bound, 0, |gs|
  {
    if gs == [] then Some([])
    else if gs[0] >= bound then None
    else
      match BestPlan(m, gs[0])
      case None => None
      case Some(p) =>
        match BestPlans(m, gs[1..], bound)
        case None => None
        case Some(ps) => Some([p] + ps)
  }
}
