/** What every single task keeps, whatever is on the stack. */
module CascadesInv {
  import opened Options
  import opened RelPlan
  import opened CascadesModel
  import opened CascadesRun

  /** Expression and group ids are distinct and come from one counter. */
  ghost predicate IdsOk(m: Memo) {
    && (forall e :: e in m.nodes ==> 0 < e <= m.counter && e !in m.groups)
    && (forall g :: g in m.groups ==> 0 < g <= m.counter)
  }

  /** The group of an expression and the members of a group agree. */
  ghost predicate MembersOk(m: Memo) {
    && m.groupOf.Keys == m.nodes.Keys
    && (forall e :: e in m.groupOf ==> m.groupOf[e] in m.groups && e in m.groups[m.groupOf[e]].exprs)
    && (forall g, e :: g in m.groups && e in m.groups[g].exprs ==> e in m.groupOf && m.groupOf[e] == g)
  }

  /** Input groups exist and are older than the group of the expression. */
  ghost predicate NodeOk(m: Memo, e: ExprId)
    requires e in m.nodes && e in m.groupOf
  {
    && (IsLogical(m.nodes[e].op) || IsPhysical(m.nodes[e].op))
    && forall i :: 0 <= i < |m.nodes[e].children| ==>
         m.nodes[e].children[i] in m.groups && m.nodes[e].children[i] < m.groupOf[e]
  }

  ghost predicate WinnerOk(m: Memo, g: GroupId)
    requires g in m.groups
  {
    m.groups[g].winner.Some? ==>
      var w := m.groups[g].winner.value;
      !w.impossible && w.expr in m.groups[g].exprs && w.expr in m.nodes && IsPhysical(m.nodes[w.expr].op)
  }

  ghost predicate MemoOk(m: Memo) {
    && IdsOk(m) && MembersOk(m)
    && (forall e :: e in m.nodes ==> NodeOk(m, e))
    && (forall g :: g in m.groups ==> WinnerOk(m, g))
  }

  ghost predicate TaskOk(m: Memo, t: Task) {
    match t
    case OptimizeGroup(g) => g in m.groups
    case ExploreGroup(g) => g in m.groups
    case OptimizeExpr(e, _) => e in m.nodes
    case ApplyRuleTo(r, e, _) => r < |RULES| && e in m.nodes && TopMatches(MatcherOf(RULES[r]), m.nodes[e].op)
    case OptimizeInputs(e, _, _) => e in m.nodes && IsPhysical(m.nodes[e].op)
  }

  ghost predicate TasksOk(m: Memo, ts: seq<Task>) {
    forall i :: 0 <= i < |ts| ==> TaskOk(m, ts[i])
  }

  ghost predicate StateOk(s: OptState) { MemoOk(s.core.memo) && TasksOk(s.core.memo, s.tasks) }

  /** Nothing is ever taken out of the memo: expressions stay what they are and where
      they are, and a group that has a winner keeps having one. */
  ghost predicate Grows(m: Memo, m': Memo) {
    && m.counter <= m'.counter
    && (forall e :: e in m.nodes ==> e in m'.nodes && m'.nodes[e] == m.nodes[e])
    && (forall e :: e in m.groupOf ==> e in m'.groupOf && m'.groupOf[e] == m.groupOf[e])
    && (forall g :: g in m.groups ==>
          g in m'.groups && m.groups[g].exprs <= m'.groups[g].exprs && (HasWinner(m, g) ==> HasWinner(m', g)))
  }

  lemma GrowsTrans(m: Memo, m1: Memo, m2: Memo)
    requires Grows(m, m1) && Grows(m1, m2)
    ensures Grows(m, m2)
  {
  }

  lemma TasksStayOk(m: Memo, m': Memo, ts: seq<Task>)
    requires TasksOk(m, ts) && Grows(m, m')
    ensures TasksOk(m', ts)
  {
  }

  /** Adding the physical counterpart of a member over the same inputs. */
  lemma WithExprOk(m: Memo, e: ExprId, op: Operator)
    requires MemoOk(m) && e in m.nodes && IsPhysical(op)
    ensures var m' := WithExpr(m, MemoNode(op, m.nodes[e].children), m.groupOf[e]);
            MemoOk(m') && Grows(m, m') && m'.counter in m'.nodes && m'.nodes[m'.counter].op == op
  {
    hide WithExpr, IdsOk, MembersOk, NodeOk, WinnerOk, Grows, IsLogical, IsPhysical;
    InputsOlder(m, e);
    var node, g := MemoNode(op, m.nodes[e].children), m.groupOf[e];
    var m' := WithExpr(m, node, g);
    AddedTo(m, node, g);
    AddedIds(m, node, g);
    AddedMember(m, node, g);
    forall x | x in m'.nodes ensures NodeOk(m', x) {
      if x != m'.counter { OldNodeOk(m, m', x); } else { NewNodeOk(m, m', node, g); }
    }
    forall h | h in m'.groups ensures WinnerOk(m', h) { AddedWinner(m, node, g, h); }
  }

  lemma InputsOlder(m: Memo, e: ExprId)
    requires MemoOk(m) && e in m.nodes
    ensures e in m.groupOf && m.groupOf[e] in m.groups
    ensures forall i :: 0 <= i < |m.nodes[e].children| ==>
              m.nodes[e].children[i] in m.groups && m.nodes[e].children[i] < m.groupOf[e]
  {
  }

  lemma AddedTo(m: Memo, node: MemoNode, g: GroupId)
    requires IdsOk(m) && MembersOk(m)
    ensures var m' := WithExpr(m, node, g);
            && Grows(m, m') && m'.counter == m.counter + 1
            && m'.nodes == m.nodes[m'.counter := node] && m'.groupOf == m.groupOf[m'.counter := g]
            && m'.groups.Keys == m.groups.Keys + {g}
  {
  }

  lemma AddedIds(m: Memo, node: MemoNode, g: GroupId)
    requires IdsOk(m) && g in m.groups
    ensures IdsOk(WithExpr(m, node, g))
  {
  }

  lemma AddedMember(m: Memo, node: MemoNode, g: GroupId)
    requires IdsOk(m) && MembersOk(m) && g in m.groups
    ensures MembersOk(WithExpr(m, node, g))
  {
    var e := m.counter + 1;
    assert e !in m.groupOf by { assert e !in m.nodes; }
    assert forall h :: h in m.groups ==> e !in m.groups[h].exprs;
  }

  lemma AddedWinner(m: Memo, node: MemoNode, g: GroupId, h: GroupId)
    requires IdsOk(m) && MembersOk(m) && g in m.groups && h in m.groups && WinnerOk(m, h)
    ensures h in WithExpr(m, node, g).groups && WinnerOk(WithExpr(m, node, g), h)
  {
    hide IsPhysical;
  }

  /** What held of an expression goes on holding in a larger memo. */
  lemma OldNodeOk(m: Memo, m': Memo, x: ExprId)
    requires Grows(m, m') && x in m.nodes && x in m.groupOf && NodeOk(m, x)
    ensures x in m'.nodes && x in m'.groupOf && NodeOk(m', x)
  {
  }

  lemma NewNodeOk(m: Memo, m': Memo, node: MemoNode, g: GroupId)
    requires Grows(m, m') && m'.nodes == m.nodes[m'.counter := node] && m'.groupOf == m.groupOf[m'.counter := g]
    requires IsLogical(node.op) || IsPhysical(node.op)
    requires forall i :: 0 <= i < |node.children| ==> node.children[i] in m.groups && node.children[i] < g
    ensures NodeOk(m', m'.counter)
  {
  }

  /** Making a physical member the winner of its group. */
  lemma WithWinnerOk(m: Memo, e: ExprId, cost: Cost)
    requires MemoOk(m) && e in m.nodes && IsPhysical(m.nodes[e].op)
    ensures var m' := WithWinner(m, m.groupOf[e], Winner(false, e, cost)); MemoOk(m') && Grows(m, m')
  {
    hide WithWinner, IdsOk, MembersOk, NodeOk, WinnerOk, Grows, IsLogical, IsPhysical;
    InputsOlder(m, e);
    var m' := WithWinner(m, m.groupOf[e], Winner(false, e, cost));
    WinnerSet(m, e, cost);
    forall x | x in m'.nodes ensures x in m'.groupOf && NodeOk(m', x) {
      InputsOlder(m, x);
      OldNodeOk(m, m', x);
    }
    forall h | h in m'.groups ensures WinnerOk(m', h) { WinnerSetOk(m, e, cost, h); }
  }

  lemma WinnerSet(m: Memo, e: ExprId, cost: Cost)
    requires IdsOk(m) && MembersOk(m) && e in m.nodes
    ensures var m' := WithWinner(m, m.groupOf[e], Winner(false, e, cost));
            && IdsOk(m') && MembersOk(m') && Grows(m, m')
            && m'.nodes == m.nodes && m'.groupOf == m.groupOf && m'.groups.Keys == m.groups.Keys
  {
    hide IdsOk, MembersOk;
    WinnerKeepsIds(m, e, cost);
    assert m.groupOf[e] in m.groups by { MemberHasGroup(m, e); }
  }

  lemma MemberHasGroup(m: Memo, e: ExprId)
    requires MembersOk(m) && e in m.nodes
    ensures e in m.groupOf && m.groupOf[e] in m.groups
  {
  }

  lemma WinnerKeepsIds(m: Memo, e: ExprId, cost: Cost)
    requires IdsOk(m) && MembersOk(m) && e in m.nodes
    ensures var m' := WithWinner(m, m.groupOf[e], Winner(false, e, cost)); IdsOk(m') && MembersOk(m')
  {
    assert m.groupOf[e] in m.groups;
  }

  lemma WinnerSetOk(m: Memo, e: ExprId, cost: Cost, h: GroupId)
    requires IdsOk(m) && MembersOk(m) && e in m.nodes && IsPhysical(m.nodes[e].op) && h in m.groups && WinnerOk(m, h)
    ensures var m' := WithWinner(m, m.groupOf[e], Winner(false, e, cost)); h in m'.groups && WinnerOk(m', h)
  {
  }

  // ---- one task ------------------------------------------------------------

  lemma {:induction false} ExprTasksOk(m: Memo, exprs: seq<ExprId>, exploring: bool)
    requires forall i :: 0 <= i < |exprs| ==> exprs[i] in m.nodes
    ensures TasksOk(m, ExprTasks(m, exprs, exploring))
  {
    if exprs != [] { ExprTasksOk(m, exprs[1..], exploring); }
  }

  lemma {:induction false} InputTasksOk(m: Memo, exprs: seq<ExprId>)
    requires forall i :: 0 <= i < |exprs| ==> exprs[i] in m.nodes
    ensures TasksOk(m, InputTasks(m, exprs))
  {
    if exprs != [] { InputTasksOk(m, exprs[1..]); }
  }

  lemma {:induction false} ExploreTasksOk(m: Memo, gs: seq<GroupId>)
    requires forall i :: 0 <= i < |gs| ==> gs[i] in m.groups
    ensures TasksOk(m, ExploreTasks(gs))
  {
    if gs != [] { ExploreTasksOk(m, gs[1..]); }
  }

  lemma MembersKnown(m: Memo, g: GroupId)
    requires MemoOk(m) && g in m.groups
    ensures forall i :: 0 <= i < |ExprsInGroup(m, g)| ==> ExprsInGroup(m, g)[i] in m.nodes
  {
    hide NodeOk, WinnerOk;
    AscendingSpec(m.groups[g].exprs);
    var exprs := ExprsInGroup(m, g);
    assert forall i :: 0 <= i < |exprs| ==> exprs[i] in exprs;
  }

  lemma {:induction false} RuleTasksOk(c: Core, e: ExprId, exploring: bool, r: RuleId)
    requires e in c.memo.nodes && r <= |RULES|
    requires forall i :: 0 <= i < |c.memo.nodes[e].children| ==> c.memo.nodes[e].children[i] in c.memo.groups
    ensures TasksOk(c.memo, RuleTasks(c, e, exploring, r))
    decreases |RULES| - r
  {
    hide TopMatches, MatcherOf;
    if r < |RULES| {
      ExploreTasksOk(c.memo, c.memo.nodes[e].children);
      RuleTasksOk(c, e, exploring, r + 1);
    }
  }

  /** A rule that fires adds the operator it makes over the same inputs to the group of
      the matched expression, and goes on with the inputs of the new one. */
  lemma FiringAdds(c: Core, r: RuleId, e: ExprId, exploring: bool)
    requires MemoOk(c.memo) && TaskOk(c.memo, ApplyRuleTo(r, e, exploring)) && !IsFired(c.fired, e, r)
    ensures IsPhysical(ApplyRule(RULES[r], c.memo.nodes[e].op))
    ensures ExecApply(c, r, e, exploring) ==
            (Core(WithExpr(c.memo, MemoNode(ApplyRule(RULES[r], c.memo.nodes[e].op), c.memo.nodes[e].children),
                           GroupOf(c.memo, e)), MarkFired(c.fired, e, r), c.explored),
             [OptimizeInputs(c.memo.counter + 1, None, true)])
  {
    hide MemoOk, Bindings, WithExpr, ApplyToAll;
    var node, g := c.memo.nodes[e], GroupOf(c.memo, e);
    BindingsOf(c.memo, node, RULES[r]);
    ApplyToMatched(c.memo, RULES[r], g, node, exploring);
    CounterOf(c.memo, MemoNode(ApplyRule(RULES[r], node.op), node.children), g);
  }

  /** A rule that was fired does nothing; one that fires adds one physical expression to
      the group of the matched one, and is then marked. */
  lemma ApplyOk(c: Core, r: RuleId, e: ExprId, exploring: bool)
    requires MemoOk(c.memo) && TaskOk(c.memo, ApplyRuleTo(r, e, exploring))
    ensures var (c', ts) := ExecApply(c, r, e, exploring);
            && MemoOk(c'.memo) && Grows(c.memo, c'.memo) && TasksOk(c'.memo, ts)
            && IsFired(c'.fired, e, r)
            && (IsFired(c.fired, e, r) ==> c' == c && ts == [])
            && (!IsFired(c.fired, e, r) ==> |c'.memo.nodes| == |c.memo.nodes| + 1 && |ts| == 1)
  {
    hide MemoOk, Bindings, Grows, WithExpr, ApplyToAll;
    if !IsFired(c.fired, e, r) {
      FiringAdds(c, r, e, exploring);
      NewExpr(c.memo, e, ApplyRule(RULES[r], c.memo.nodes[e].op));
      CounterOf(c.memo, MemoNode(ApplyRule(RULES[r], c.memo.nodes[e].op), c.memo.nodes[e].children), GroupOf(c.memo, e));
    } else {
      NothingGrows(c.memo);
    }
  }

  lemma NothingGrows(m: Memo)
    ensures Grows(m, m)
  {
  }

  lemma NewExpr(m: Memo, e: ExprId, op: Operator)
    requires MemoOk(m) && e in m.nodes && IsPhysical(op)
    ensures var m' := WithExpr(m, MemoNode(op, m.nodes[e].children), GroupOf(m, e));
            && MemoOk(m') && Grows(m, m') && m'.counter in m'.nodes && m'.nodes[m'.counter].op == op
            && |m'.nodes| == |m.nodes| + 1
  {
    hide NodeOk, WinnerOk;
    WithExprOk(m, e, op);
  }

  lemma ApplyToMatched(m: Memo, rule: Rule, g: GroupId, node: MemoNode, exploring: bool)
    requires MatcherOf(rule).nodeType == TypeOf(node.op)
    ensures IsPhysical(ApplyRule(rule, node.op))
    ensures var m1 := WithExpr(m, MemoNode(ApplyRule(rule, node.op), node.children), g);
            ApplyToAll(m, rule, g, [Plan(node.op, Holders(node.children))], exploring) ==
              (m1, [OptimizeInputs(m1.counter, None, true)])
  {
    hide WithExpr, Holders, HeldGroups;
    HoldersHold(node.children);
    var binding := Plan(node.op, Holders(node.children));
    assert [binding][1..] == [];
    var m1 := WithExpr(m, MemoNode(ApplyRule(rule, node.op), node.children), g);
    assert ApplyToAll(m1, rule, g, [], exploring) == (m1, []);
    var task := OptimizeInputs(m1.counter, None, true);
    assert [task] + [] == [task];
  }

  lemma InputsOk(c: Core, e: ExprId, from: Option<Continue>, pruning: bool)
    requires MemoOk(c.memo) && e in c.memo.nodes && IsPhysical(c.memo.nodes[e].op)
    ensures var (c', ts) := ExecInputs(c, e, from, pruning);
            MemoOk(c'.memo) && Grows(c.memo, c'.memo) && TasksOk(c'.memo, ts)
  {
    hide MemoOk, Grows, InputCosts, SumFrom, WithWinner, IsPhysical, IsLogical;
    InputsOlder(c.memo, e);
    NothingGrows(c.memo);
    if from.Some? && from.value.nextGroupIdx >= |c.memo.nodes[e].children| {
      WithWinnerOk(c.memo, e, SumFrom(ZERO_COST, from.value.inputCost));
    }
  }

  lemma ExecOk(c: Core, t: Task)
    requires MemoOk(c.memo) && TaskOk(c.memo, t)
    ensures MemoOk(Exec(c, t).0.memo) && Grows(c.memo, Exec(c, t).0.memo)
    ensures TasksOk(Exec(c, t).0.memo, Exec(c, t).1)
  {
    hide IdsOk, MembersOk, NodeOk, WinnerOk, Grows, ExecApply, ExecInputs, ExprTasks, InputTasks, RuleTasks, TaskOk;
    NothingGrows(c.memo);
    match t {
      case OptimizeGroup(g) =>
        GroupTaskOk(c, g);
      case ExploreGroup(g) =>
        ExploreTaskOk(c, g);
      case OptimizeExpr(e, exploring) =>
        ExprTaskOk(c, e, exploring);
      case ApplyRuleTo(r, e, exploring) =>
        RuleInRange(c.memo, r, e, exploring);
        ApplyOk(c, r, e, exploring);
      case OptimizeInputs(e, from, pruning) =>
        PhysicalInputs(c.memo, e, from, pruning);
        InputsOk(c, e, from, pruning);
    }
  }

  lemma RuleInRange(m: Memo, r: RuleId, e: ExprId, exploring: bool)
    requires TaskOk(m, ApplyRuleTo(r, e, exploring))
    ensures r < |RULES|
  {
  }

  lemma PhysicalInputs(m: Memo, e: ExprId, from: Option<Continue>, pruning: bool)
    requires TaskOk(m, OptimizeInputs(e, from, pruning))
    ensures e in m.nodes && IsPhysical(m.nodes[e].op)
  {
  }

  lemma GroupTaskOk(c: Core, g: GroupId)
    requires MemoOk(c.memo) && TaskOk(c.memo, OptimizeGroup(g))
    ensures TasksOk(c.memo, ExecGroup(c, g))
  {
    hide MemoOk, ExprTasks, InputTasks, ExprsInGroup, GroupAt;
    MembersKnown(c.memo, g);
    ExprTasksOk(c.memo, ExprsInGroup(c.memo, g), false);
    InputTasksOk(c.memo, ExprsInGroup(c.memo, g));
  }

  lemma ExploreTaskOk(c: Core, g: GroupId)
    requires MemoOk(c.memo) && TaskOk(c.memo, ExploreGroup(g))
    ensures ExecExplore(c, g).0.memo == c.memo && TasksOk(c.memo, ExecExplore(c, g).1)
  {
    hide MemoOk, ExprTasks, ExprsInGroup;
    MembersKnown(c.memo, g);
    ExprTasksOk(c.memo, ExprsInGroup(c.memo, g), true);
  }

  lemma ExprTaskOk(c: Core, e: ExprId, exploring: bool)
    requires MemoOk(c.memo) && TaskOk(c.memo, OptimizeExpr(e, exploring))
    ensures TasksOk(c.memo, RuleTasks(c, e, exploring, 0))
  {
    hide IdsOk, WinnerOk, RuleTasks, TopMatches, MatcherOf;
    assert NodeOk(c.memo, e);
    RuleTasksOk(c, e, exploring, 0);
  }

  /** Every step keeps the memo consistent and the pending tasks meaningful, and only
      adds to the memo. */
  lemma StepKeepsOk(s: OptState)
    requires StateOk(s)
    ensures StateOk(Step(s)) && Grows(s.core.memo, Step(s).core.memo)
  {
    hide MemoOk, Exec, Grows, TaskOk;
    NothingGrows(s.core.memo);
    if s.tasks != [] {
      var n := |s.tasks| - 1;
      ExecOk(s.core, s.tasks[n]);
      TasksStayOk(s.core.memo, Exec(s.core, s.tasks[n]).0.memo, s.tasks[..n]);
    }
  }

  lemma {:induction false} StepsKeepOk(s: OptState, n: nat)
    requires StateOk(s)
    ensures StateOk(Steps(s, n)) && Grows(s.core.memo, Steps(s, n).core.memo)
    decreases n
  {
    hide StateOk, Step, Grows;
    if n == 0 {
      NothingGrows(s.core.memo);
    } else {
      StepKeepsOk(s);
      StepsKeepOk(Step(s), n - 1);
      GrowsTrans(s.core.memo, Step(s).core.memo, Steps(s, n).core.memo);
    }
  }

  // ---- the start -----------------------------------------------------------

  lemma WithGroupOk(m: Memo, op: Operator, gs: seq<GroupId>)
    requires MemoOk(m) && IsLogical(op)
    requires forall i :: 0 <= i < |gs| ==> gs[i] in m.groups
    ensures var m' := WithGroup(m, MemoNode(op, gs)); MemoOk(m') && Grows(m, m') && m.counter + 2 in m'.groups
  {
    hide WithGroup, IdsOk, MembersOk, NodeOk, WinnerOk, Grows, IsLogical, IsPhysical;
    var node := MemoNode(op, gs);
    var m' := WithGroup(m, node);
    NewGroup(m, node);
    NewGroupMember(m, node);
    IdsBelow(m);
    forall x | x in m'.nodes ensures NodeOk(m', x) {
      if x != m.counter + 1 { OldNodeOk(m, m', x); } else { FirstNodeOk(m, m', node); }
    }
    forall h | h in m'.groups ensures WinnerOk(m', h) { NewGroupWinner(m, node, h); }
  }

  lemma IdsBelow(m: Memo)
    requires IdsOk(m)
    ensures forall g :: g in m.groups ==> g <= m.counter
  {
  }

  lemma NewGroup(m: Memo, node: MemoNode)
    requires IdsOk(m) && MembersOk(m)
    ensures var m' := WithGroup(m, node);
            && IdsOk(m') && Grows(m, m')
            && m'.nodes == m.nodes[m.counter + 1 := node] && m'.groupOf == m.groupOf[m.counter + 1 := m.counter + 2]
            && m'.groups == m.groups[m.counter + 2 := Group({m.counter + 1}, None)]
  {
  }

  lemma NewGroupMember(m: Memo, node: MemoNode)
    requires IdsOk(m) && MembersOk(m)
    ensures MembersOk(WithGroup(m, node))
  {
    var m', e, g := WithGroup(m, node), m.counter + 1, m.counter + 2;
    assert e !in m.nodes && g !in m.groups;
    assert m'.groups == m.groups[g := Group({e}, None)] && m'.groupOf == m.groupOf[e := g];
    forall h, x | h in m'.groups && x in m'.groups[h].exprs ensures x in m'.nodes && m'.groupOf[x] == h {
      if h != g { assert x in m.groups[h].exprs && x in m.nodes && m.groupOf[x] == h; }
    }
    forall x | x in m'.nodes ensures m'.groupOf[x] in m'.groups && x in m'.groups[m'.groupOf[x]].exprs {
      if x != e { assert m.groupOf[x] in m.groups && x in m.groups[m.groupOf[x]].exprs; }
    }
  }

  lemma NewGroupWinner(m: Memo, node: MemoNode, h: GroupId)
    requires IdsOk(m) && MembersOk(m) && (h in m.groups ==> WinnerOk(m, h)) && h in WithGroup(m, node).groups
    ensures WinnerOk(WithGroup(m, node), h)
  {
  }

  lemma FirstNodeOk(m: Memo, m': Memo, node: MemoNode)
    requires Grows(m, m') && IsLogical(node.op)
    requires m'.nodes == m.nodes[m.counter + 1 := node] && m'.groupOf == m.groupOf[m.counter + 1 := m.counter + 2]
    requires forall i :: 0 <= i < |node.children| ==> node.children[i] in m.groups && node.children[i] <= m.counter
    ensures NodeOk(m', m.counter + 1)
  {
  }

  lemma {:induction false} EnteredOk(m: Memo, t: Plan)
    requires MemoOk(m) && AllLogical(t)
    ensures MemoOk(Entered(m, t)) && Grows(m, Entered(m, t)) && m.counter + 2 * Size(t) in Entered(m, t).groups
    decreases t
  {
    hide MemoOk, Grows, GroupIds, Size;
    SizeOf(t);
    EnteredAllOk(m, t.inputs);
    WithGroupOk(EnteredAll(m, t.inputs), t.op, GroupIds(t.inputs, m.counter));
    GrowsTrans(m, EnteredAll(m, t.inputs), Entered(m, t));
  }

  lemma {:induction false} EnteredAllOk(m: Memo, ts: seq<Plan>)
    requires MemoOk(m) && forall i :: 0 <= i < |ts| ==> AllLogical(ts[i])
    ensures var m' := EnteredAll(m, ts);
            && MemoOk(m') && Grows(m, m')
            && forall i :: 0 <= i < |ts| ==> GroupIds(ts, m.counter)[i] in m'.groups
    decreases ts
  {
    hide MemoOk, Size, Entered;
    if ts == [] {
      NothingGrows(m);
    } else {
      var m1 := Entered(m, ts[0]);
      EnteredOk(m, ts[0]);
      EnteredAllOk(m1, ts[1..]);
      GrowsTrans(m, m1, EnteredAll(m, ts));
    }
  }

  /** In every state the optimizer passes through on a logical plan, the memo is
      consistent and every pending task refers to what it needs. */
  lemma EveryStateOk(t: Plan, n: nat)
    requires AllLogical(t)
    ensures StateOk(Steps(OptState(Initial(t), [OptimizeGroup(2 * Size(t))]), n))
  {
    hide Steps, MemoOk, Entered, Size;
    EmptyOk();
    EnteredOk(EMPTY_MEMO, t);
    StepsKeepOk(OptState(Initial(t), [OptimizeGroup(2 * Size(t))]), n);
  }

  lemma EmptyOk()
    ensures MemoOk(EMPTY_MEMO)
  {
  }
}
