/** The run of the optimizer on a plan: what executing the task of a group, with all the
    tasks it leads to, does to the memo, and in how many steps. */
module CascadesRun {
  import opened Options
  import opened RelPlan
  import opened CascadesModel

  // ---- layout --------------------------------------------------------------

  /** The plan `t` was entered from counter `base` on and no task has touched it yet. */
  ghost predicate Fresh(c: Core, t: Plan, base: nat)
    decreases t
  {
    var g := base + 2 * Size(t);
    && NodeFresh(c, t, g, GroupIds(t.inputs, base))
    && Unexplored(c, GroupIds(t.inputs, base))
    && FreshAll(c, t.inputs, base)
  }

  ghost predicate FreshAll(c: Core, ts: seq<Plan>, base: nat)
    decreases ts
  {
    ts == [] || (Fresh(c, ts[0], base) && FreshAll(c, ts[1..], base + 2 * Size(ts[0])))
  }

  ghost predicate NodeFresh(c: Core, t: Plan, g: GroupId, gs: seq<GroupId>)
    requires g > 0
  {
    && g in c.memo.groups && c.memo.groups[g] == Group({g - 1}, None)
    && g - 1 in c.memo.nodes && c.memo.nodes[g - 1] == MemoNode(t.op, gs)
    && g - 1 in c.memo.groupOf && c.memo.groupOf[g - 1] == g
    && g - 1 !in c.fired
    && IsLogical(t.op)
  }

  ghost predicate Unexplored(c: Core, gs: seq<GroupId>) {
    forall i :: 0 <= i < |gs| ==> gs[i] !in c.explored
  }

  /** The group of `t` has been optimized: its winner is the physical counterpart of
      `t` over its input groups, and these are done as well. A group no rule knows has
      no winner. */
  ghost predicate Done(c: Core, t: Plan, base: nat)
    decreases t
  {
    var g := base + 2 * Size(t);
    if Convertible(t.op)
    then NodeDone(c, t, g, GroupIds(t.inputs, base)) && DoneAll(c, t.inputs, base)
    else g in c.memo.groups && c.memo.groups[g].winner == None
  }

  ghost predicate DoneAll(c: Core, ts: seq<Plan>, base: nat)
    decreases ts
  {
    ts == [] || (Done(c, ts[0], base) && DoneAll(c, ts[1..], base + 2 * Size(ts[0])))
  }

  ghost predicate NodeDone(c: Core, t: Plan, g: GroupId, gs: seq<GroupId>)
    requires Convertible(t.op)
  {
    && g in c.memo.groups && HasWinner(c.memo, g)
    && var p := c.memo.groups[g].winner.value.expr;
       p in c.memo.nodes && c.memo.nodes[p] == MemoNode(PhysicalOf(t.op), gs)
  }

  /** All ids in use are at most the counter. */
  ghost predicate Bounded(c: Core) {
    && (forall e :: e in c.memo.nodes || e in c.memo.groupOf || e in c.fired ==> e <= c.memo.counter)
    && (forall g :: g in c.memo.groups ==> g <= c.memo.counter)
  }

  /** From `c` to `c'` only groups, rule marks and explorations with ids in `(lo, hi]`
      changed, and expressions were only added. */
  ghost predicate Frame(c: Core, c': Core, lo: nat, hi: nat) {
    && c.memo.counter <= c'.memo.counter
    && c'.memo.groups.Keys == c.memo.groups.Keys
    && (forall e :: e in c.memo.nodes ==> e in c'.memo.nodes && c'.memo.nodes[e] == c.memo.nodes[e])
    && (forall e :: e in c.memo.groupOf ==> e in c'.memo.groupOf && c'.memo.groupOf[e] == c.memo.groupOf[e])
    && (forall g :: g in c.memo.groups && !(lo < g <= hi) ==> c'.memo.groups[g] == c.memo.groups[g])
    && (forall e :: e <= c.memo.counter && !(lo < e <= hi) ==> (e in c'.fired <==> e in c.fired))
    && (forall g :: !(lo < g <= hi) ==> (g in c'.explored <==> g in c.explored))
  }

  lemma FrameTrans(c: Core, c1: Core, c2: Core, lo: nat, mid: nat, hi: nat)
    requires lo <= mid <= hi && Frame(c, c1, lo, mid) && Frame(c1, c2, mid, hi)
    ensures Frame(c, c2, lo, hi)
  {
  }

  lemma FrameWiden(c: Core, c': Core, lo: nat, hi: nat, lo': nat, hi': nat)
    requires Frame(c, c', lo, hi) && lo' <= lo && hi <= hi'
    ensures Frame(c, c', lo', hi')
  {
  }

  /** Changes elsewhere leave an untouched plan untouched. */
  lemma {:induction false} FreshFrame(c: Core, c': Core, t: Plan, base: nat, lo: nat, hi: nat)
    requires Fresh(c, t, base) && Frame(c, c', lo, hi)
    requires base + 2 * Size(t) <= c.memo.counter && (hi <= base || base + 2 * Size(t) <= lo)
    ensures Fresh(c', t, base)
    decreases t
  {
    hide Size, GroupIds, FreshAll;
    SizeOf(t);
    GroupIdsInside(t.inputs, base);
    FreshAllFrame(c, c', t.inputs, base, lo, hi);
  }

  lemma {:induction false} FreshAllFrame(c: Core, c': Core, ts: seq<Plan>, base: nat, lo: nat, hi: nat)
    requires FreshAll(c, ts, base) && Frame(c, c', lo, hi)
    requires base + 2 * SizeAll(ts) <= c.memo.counter && (hi <= base || base + 2 * SizeAll(ts) <= lo)
    ensures FreshAll(c', ts, base)
    decreases ts
  {
    hide Size, GroupIds, Fresh, Frame;
    if ts != [] {
      FreshFrame(c, c', ts[0], base, lo, hi);
      FreshAllFrame(c, c', ts[1..], base + 2 * Size(ts[0]), lo, hi);
    }
  }

  lemma SizeOf(t: Plan)
    ensures Size(t) == 1 + SizeAll(t.inputs)
  {
  }

  /** Group ids lie inside the stretch of their plans, in increasing order. */
  lemma {:induction false} GroupIdsInside(ts: seq<Plan>, base: nat)
    ensures forall i :: 0 <= i < |ts| ==> base < GroupIds(ts, base)[i] <= base + 2 * SizeAll(ts)
    ensures forall i, j :: 0 <= i < j < |ts| ==> GroupIds(ts, base)[i] < GroupIds(ts, base)[j]
  {
    hide Size;
    if ts != [] {
      GroupIdsInside(ts[1..], base + 2 * Size(ts[0]));
    }
  }

  lemma {:induction false} DoneFrame(c: Core, c': Core, t: Plan, base: nat, lo: nat, hi: nat)
    requires Done(c, t, base) && Frame(c, c', lo, hi)
    requires hi <= base || base + 2 * Size(t) <= lo
    ensures Done(c', t, base)
    decreases t
  {
    hide Size, GroupIds, DoneAll;
    SizeOf(t);
    if Convertible(t.op) { DoneAllFrame(c, c', t.inputs, base, lo, hi); }
  }

  lemma {:induction false} DoneAllFrame(c: Core, c': Core, ts: seq<Plan>, base: nat, lo: nat, hi: nat)
    requires DoneAll(c, ts, base) && Frame(c, c', lo, hi)
    requires hi <= base || base + 2 * SizeAll(ts) <= lo
    ensures DoneAll(c', ts, base)
    decreases ts
  {
    hide Size, GroupIds, Done, Frame;
    if ts != [] {
      DoneFrame(c, c', ts[0], base, lo, hi);
      DoneAllFrame(c, c', ts[1..], base + 2 * Size(ts[0]), lo, hi);
    }
  }

  // ---- runs of the stack ---------------------------------------------------

  /** Executing the tasks `ts` on top of `rest`, with everything they push, takes `n`
      steps and leads from `c` to `c'`. */
  ghost predicate Runs(c: Core, rest: seq<Task>, ts: seq<Task>, n: nat, c': Core) {
    Steps(OptState(c, rest + ts), n) == OptState(c', rest)
  }

  lemma {:induction false} StepsAdd(s: OptState, a: nat, b: nat)
    ensures Steps(s, a + b) == Steps(Steps(s, a), b)
    decreases a
  {
    hide Step;
    if a > 0 { StepsAdd(Step(s), a - 1, b); }
  }

  lemma StepTop(c: Core, rest: seq<Task>, t: Task)
    ensures Step(OptState(c, rest + [t])) == OptState(Exec(c, t).0, rest + Exec(c, t).1)
  {
    hide Exec;
    assert (rest + [t])[..|rest|] == rest;
  }

  lemma RunsNothing(c: Core, rest: seq<Task>)
    ensures Runs(c, rest, [], 0, c)
  {
    assert rest + [] == rest;
  }

  /** The top task, then what it pushed, then the tasks below it. */
  lemma RunsTop(c: Core, rest: seq<Task>, ts: seq<Task>, t: Task, n1: nat, c2: Core, n2: nat, c3: Core)
    requires Runs(Exec(c, t).0, rest + ts, Exec(c, t).1, n1, c2) && Runs(c2, rest, ts, n2, c3)
    ensures Runs(c, rest, ts + [t], 1 + n1 + n2, c3)
  {
    hide Exec, Step;
    assert rest + (ts + [t]) == (rest + ts) + [t];
    StepTop(c, rest + ts, t);
    StepsAdd(Step(OptState(c, rest + (ts + [t]))), n1, n2);
  }

  lemma RunsOne(c: Core, rest: seq<Task>, t: Task, n: nat, c': Core)
    requires Runs(Exec(c, t).0, rest, Exec(c, t).1, n, c')
    ensures Runs(c, rest, [t], 1 + n, c')
  {
    hide Exec, Step;
    StepTop(c, rest, t);
  }

  // ---- exploration ---------------------------------------------------------

  /** Every group has one expression, a logical one. */
  ghost predicate SingleLogical(m: Memo, gs: seq<GroupId>) {
    forall i :: 0 <= i < |gs| ==>
      && gs[i] > 0 && GroupAt(m, gs[i]).exprs == {gs[i] - 1} && IsLogical(NodeAt(m, gs[i] - 1).op)
  }

  lemma {:induction false} FreshAllSingle(c: Core, ts: seq<Plan>, base: nat)
    requires FreshAll(c, ts, base)
    ensures SingleLogical(c.memo, GroupIds(ts, base))
    decreases |ts|
  {
    hide Size, FreshAll;
    if ts != [] {
      assert Fresh(c, ts[0], base) && FreshAll(c, ts[1..], base + 2 * Size(ts[0])) by { UnfoldFreshAll(c, ts, base); }
      FreshAllSingle(c, ts[1..], base + 2 * Size(ts[0]));
    }
  }

  lemma UnfoldFreshAll(c: Core, ts: seq<Plan>, base: nat)
    requires FreshAll(c, ts, base) && ts != []
    ensures Fresh(c, ts[0], base) && FreshAll(c, ts[1..], base + 2 * Size(ts[0]))
  {
  }

  lemma AscendingSingle(x: nat)
    ensures Ascending({x}) == [x]
  {
    AscendingNext({}, x);
    assert {} + {x} == {x};
  }

  lemma ExploringDoesNothing(c: Core, e: ExprId)
    ensures RuleTasks(c, e, true, 0) == []
  {
    assert RuleTasks(c, e, true, 3) == [];
    assert RuleTasks(c, e, true, 2) == [];
    assert RuleTasks(c, e, true, 1) == [];
  }

  lemma {:induction false} ExploreTasksSnoc(gs: seq<GroupId>, g: GroupId)
    ensures ExploreTasks(gs + [g]) == ExploreTasks(gs) + [ExploreGroup(g)]
  {
    if gs == [] {
      assert gs + [g] == [g] && [g][1..] == [];
    } else {
      ExploreTasksSnoc(gs[1..], g);
      assert (gs + [g])[1..] == gs[1..] + [g];
    }
  }

  /** Exploring unexplored input groups only marks them: two steps per group. */
  lemma {:induction false} ExploreRuns(c: Core, rest: seq<Task>, gs: seq<GroupId>) returns (c': Core)
    requires SingleLogical(c.memo, gs) && Unexplored(c, gs)
    requires forall i, j :: 0 <= i < j < |gs| ==> gs[i] != gs[j]
    ensures Runs(c, rest, ExploreTasks(gs), 2 * |gs|, c')
    ensures c' == c.(explored := c'.explored)
    ensures forall g :: g in c'.explored <==> g in c.explored || g in gs
    decreases |gs|
  {
    hide Exec, Steps, Step;
    if gs == [] {
      RunsNothing(c, rest);
      c' := c;
    } else {
      var k := |gs| - 1;
      var front, g := gs[..k], gs[k];
      assert gs == front + [g];
      ExploreTasksSnoc(front, g);
      var c1 := c.(explored := c.explored + {g});
      ExploreOne(c, rest + ExploreTasks(front), g);
      c' := ExploreRuns(c1, rest, front);
      RunsTop(c, rest, ExploreTasks(front), ExploreGroup(g), 1, c1, 2 * k, c');
    }
  }

  lemma ExploreOne(c: Core, rest: seq<Task>, g: GroupId)
    requires SingleLogical(c.memo, [g]) && g !in c.explored
    ensures Runs(Exec(c, ExploreGroup(g)).0, rest, Exec(c, ExploreGroup(g)).1, 1, c.(explored := c.explored + {g}))
    ensures Exec(c, ExploreGroup(g)).0 == c.(explored := c.explored + {g})
  {
    hide Steps, Step, Ascending, RuleTasks;
    var c1, e := c.(explored := c.explored + {g}), g - 1;
    assert [g][0] == g;
    AscendingSingle(e);
    assert ExprTasks(c.memo, [e], true) == [OptimizeExpr(e, true)] by { assert [e][1..] == []; }
    ExploringDoesNothing(c1, e);
    RunsNothing(c1, rest);
    RunsOne(c1, rest, OptimizeExpr(e, true), 0, c1);
  }

  // ---- rules ---------------------------------------------------------------

  ghost function RuleFor(op: Operator): RuleId
    requires Convertible(op)
  {
    match op
    case LogicalResultSet => 0
    case LogicalFilter(_) => 1
    case LogicalTableScan(_, _, _, _) => 2
  }

  /** Exactly one rule fits a convertible operator, none fits another statement. */
  lemma RuleTasksOf(c: Core, e: ExprId)
    requires e !in c.fired && IsLogical(NodeAt(c.memo, e).op)
    ensures var node := NodeAt(c.memo, e);
            RuleTasks(c, e, false, 0) == if Convertible(node.op)
                                         then [ApplyRuleTo(RuleFor(node.op), e, false)] + ExploreTasks(node.children)
                                         else []
  {
    hide ExploreTasks;
    assert RuleTasks(c, e, false, 3) == [];
    var two := RuleTasks(c, e, false, 2);
    var one := RuleTasks(c, e, false, 1);
  }

  lemma BindingsOf(m: Memo, node: MemoNode, rule: Rule)
    requires MatcherOf(rule).nodeType == TypeOf(node.op)
    ensures Bindings(m, node, MatcherOf(rule)) == [Plan(node.op, Holders(node.children))]
  {
    hide Holders;
    assert InnerBindings(m, node, [IgnoreMany], 1) == [];
    assert InnerBindings(m, node, [IgnoreMany], 0) == [];
  }

  /** Applying the fitting rule adds the physical counterpart over the same inputs to the
      group, marks the rule, and goes on with the inputs. */
  lemma ApplyOnce(c: Core, e: ExprId)
    requires e in c.memo.nodes && e in c.memo.groupOf && e !in c.fired && Convertible(c.memo.nodes[e].op)
    ensures var node, r := c.memo.nodes[e], RuleFor(c.memo.nodes[e].op);
            ExecApply(c, r, e, false) ==
              (Core(WithExpr(c.memo, MemoNode(PhysicalOf(node.op), node.children), c.memo.groupOf[e]),
                    MarkFired(c.fired, e, r), c.explored),
               [OptimizeInputs(c.memo.counter + 1, None, true)])
  {
    hide WithExpr, Bindings, Holders, HeldGroups;
    var node, g := c.memo.nodes[e], c.memo.groupOf[e];
    var r := RuleFor(node.op);
    RuleConverts(node.op);
    BindingsOf(c.memo, node, RULES[r]);
    ApplyToOne(c.memo, RULES[r], g, node);
  }

  lemma RuleConverts(op: Operator)
    requires Convertible(op)
    ensures MatcherOf(RULES[RuleFor(op)]).nodeType == TypeOf(op)
    ensures ApplyRule(RULES[RuleFor(op)], op) == PhysicalOf(op) && !IsLogical(PhysicalOf(op))
  {
  }

  lemma ApplyToOne(m: Memo, rule: Rule, g: GroupId, node: MemoNode)
    requires Convertible(node.op) && MatcherOf(rule).nodeType == TypeOf(node.op)
    requires ApplyRule(rule, node.op) == PhysicalOf(node.op)
    ensures ApplyToAll(m, rule, g, [Plan(node.op, Holders(node.children))], false) ==
            (WithExpr(m, MemoNode(PhysicalOf(node.op), node.children), g), [OptimizeInputs(m.counter + 1, None, true)])
  {
    hide WithExpr, Holders, HeldGroups;
    HoldersHold(node.children);
    var binding := Plan(node.op, Holders(node.children));
    assert [binding][1..] == [];
    var m1 := WithExpr(m, MemoNode(PhysicalOf(node.op), node.children), g);
    assert ApplyToAll(m1, rule, g, [], false) == (m1, []);
    CounterOf(m, MemoNode(PhysicalOf(node.op), node.children), g);
    var task := OptimizeInputs(m.counter + 1, None, true);
    assert [task] + [] == [task];
  }

  lemma CounterOf(m: Memo, node: MemoNode, g: GroupId)
    ensures WithExpr(m, node, g).counter == m.counter + 1
  {
  }

  // ---- the run of a group --------------------------------------------------

  /** Tasks executed for a plan, and expressions added for it. */
  ghost function StepCount(t: Plan): nat {
    if Convertible(t.op) then 5 + 2 * |t.inputs| + StepCountAll(t.inputs) else 2
  }

  ghost function StepCountAll(ts: seq<Plan>): nat {
    if ts == [] then 0 else 2 + StepCount(ts[0]) + StepCountAll(ts[1..])
  }

  ghost function Added(t: Plan): nat {
    if Convertible(t.op) then 1 + AddedAll(t.inputs) else 0
  }

  ghost function AddedAll(ts: seq<Plan>): nat {
    if ts == [] then 0 else Added(ts[0]) + AddedAll(ts[1..])
  }

  /** `k` expressions were added; the ids stay bounded by the counter. */
  ghost predicate Grown(c: Core, c': Core, k: nat) {
    c'.memo.counter == c.memo.counter + k && |c'.memo.nodes| == |c.memo.nodes| + k && Bounded(c')
  }

  lemma {:induction false} ChildrenRun(c: Core, rest: seq<Task>, p: ExprId, i: nat, costs: seq<Cost>, ts: seq<Plan>, base: nat)
    returns (c': Core)
    requires p in c.memo.nodes && i + |ts| == |c.memo.nodes[p].children|
    requires c.memo.nodes[p].children[i..] == GroupIds(ts, base)
    requires FreshAll(c, ts, base) && Bounded(c) && base + 2 * SizeAll(ts) <= c.memo.counter
    ensures Steps(OptState(c, rest + [OptimizeInputs(p, Some(Continue(i, costs, false)), true)]), StepCountAll(ts))
            == OptState(c', rest + [OptimizeInputs(p, Some(Continue(i + |ts|, costs, false)), true)])
    ensures DoneAll(c', ts, base) && Frame(c, c', base, base + 2 * SizeAll(ts)) && Grown(c, c', AddedAll(ts))
    decreases ts
  {
    hide Exec, Step, Size, Fresh, Done, Frame, Bounded, Steps, Grown;
    if ts == [] {
      StaysPut(c, base);
      NoSteps(OptState(c, rest + [OptimizeInputs(p, Some(Continue(i, costs, false)), true)]));
      return c;
    }
    var mid := base + 2 * Size(ts[0]);
    UnfoldFreshAll(c, ts, base);
    var c1 := ChildRun(c, rest, p, i, costs, ts, base);
    FreshAllFrame(c, c1, ts[1..], mid, base, mid);
    GrownIsBounded(c, c1, Added(ts[0]));
    KeepsNode(c, c1, p, base, mid);
    assert c.memo.nodes[p].children[i..][1..] == c.memo.nodes[p].children[i + 1..];
    c' := ChildrenRun(c1, rest, p, i + 1, costs, ts[1..], mid);
    StepsAdd(OptState(c, rest + [OptimizeInputs(p, Some(Continue(i, costs, false)), true)]),
             2 + StepCount(ts[0]), StepCountAll(ts[1..]));
    FrameTrans(c, c1, c', base, mid, base + 2 * SizeAll(ts));
    DoneFrame(c1, c', ts[0], base, mid, base + 2 * SizeAll(ts));
    GrownTrans(c, c1, c', Added(ts[0]), AddedAll(ts[1..]));
  }

  lemma StaysPut(c: Core, base: nat)
    requires Bounded(c)
    ensures Frame(c, c, base, base) && Grown(c, c, 0)
  {
  }

  lemma NoSteps(s: OptState)
    ensures Steps(s, 0) == s
  {
  }

  lemma KeepsNode(c: Core, c': Core, p: ExprId, lo: nat, hi: nat)
    requires Frame(c, c', lo, hi) && p in c.memo.nodes
    ensures p in c'.memo.nodes && c'.memo.nodes[p] == c.memo.nodes[p] && c.memo.counter <= c'.memo.counter
  {
  }

  lemma GrownTrans(c: Core, c1: Core, c2: Core, a: nat, b: nat)
    requires Grown(c, c1, a) && Grown(c1, c2, b)
    ensures Grown(c, c2, a + b)
  {
    hide Bounded;
  }

  lemma GrownIsBounded(c: Core, c': Core, k: nat)
    requires Grown(c, c', k)
    ensures Bounded(c')
  {
  }

  /** The rounds of the inputs task for one child: ask for the child's group, run it,
      come back and move on, whether the child got a winner or not. */
  lemma {:induction false} ChildRun(c: Core, rest: seq<Task>, p: ExprId, i: nat, costs: seq<Cost>, ts: seq<Plan>, base: nat)
    returns (c1: Core)
    requires ts != [] && p in c.memo.nodes && i + |ts| == |c.memo.nodes[p].children|
    requires c.memo.nodes[p].children[i..] == GroupIds(ts, base)
    requires Fresh(c, ts[0], base) && Bounded(c) && base + 2 * Size(ts[0]) <= c.memo.counter
    ensures Steps(OptState(c, rest + [OptimizeInputs(p, Some(Continue(i, costs, false)), true)]), 2 + StepCount(ts[0]))
            == OptState(c1, rest + [OptimizeInputs(p, Some(Continue(i + 1, costs, false)), true)])
    ensures Done(c1, ts[0], base) && Frame(c, c1, base, base + 2 * Size(ts[0])) && Grown(c, c1, Added(ts[0]))
    decreases ts, 0
  {
    hide Step, Size, Fresh, Done, Frame, Bounded, Steps, Grown;
    var g := base + 2 * Size(ts[0]);
    var ask := OptimizeInputs(p, Some(Continue(i, costs, false)), true);
    var back := OptimizeInputs(p, Some(Continue(i, costs, true)), true);
    var next := OptimizeInputs(p, Some(Continue(i + 1, costs, false)), true);
    assert c.memo.nodes[p].children[i] == GroupIds(ts, base)[0] == g;
    FreshHasNoWinner(c, ts[0], base);
    assert Exec(c, ask) == (c, [back, OptimizeGroup(g)]);
    c1 := GroupRun(c, rest + [back], ts[0], base);
    KeepsNode(c, c1, p, base, g);
    assert Exec(c1, back) == (c1, [next]);
    AskRunReturn(c, rest, ask, back, next, g, StepCount(ts[0]), c1);
  }

  lemma FreshHasNoWinner(c: Core, t: Plan, base: nat)
    requires Fresh(c, t, base)
    ensures !HasWinner(c.memo, base + 2 * Size(t))
  {
  }

  lemma AskRunReturn(c: Core, rest: seq<Task>, ask: Task, back: Task, next: Task, g: GroupId, n: nat, c1: Core)
    requires Exec(c, ask) == (c, [back, OptimizeGroup(g)]) && Exec(c1, back) == (c1, [next])
    requires Runs(c, rest + [back], [OptimizeGroup(g)], n, c1)
    ensures Steps(OptState(c, rest + [ask]), 2 + n) == OptState(c1, rest + [next])
  {
    hide Exec, Step;
    StepTop(c, rest, ask);
    assert rest + [back, OptimizeGroup(g)] == (rest + [back]) + [OptimizeGroup(g)];
    StepsAdd(OptState(c, rest + [ask]), 1, n);
    StepsAdd(OptState(c, rest + [ask]), 1 + n, 1);
    StepTop(c1, rest, back);
    OneStep(OptState(c, rest + [ask]));
    OneStep(OptState(c1, rest + [back]));
  }

  lemma OneStep(s: OptState)
    ensures Steps(s, 1) == Step(s)
  {
    hide Step;
    NoSteps(Step(s));
  }

  lemma {:induction false} GroupRun(c: Core, rest: seq<Task>, t: Plan, base: nat) returns (c': Core)
    requires Fresh(c, t, base) && Bounded(c) && base + 2 * Size(t) <= c.memo.counter
    ensures Runs(c, rest, [OptimizeGroup(base + 2 * Size(t))], StepCount(t), c')
    ensures Done(c', t, base) && Frame(c, c', base, base + 2 * Size(t)) && Grown(c, c', Added(t))
    decreases t, 2
  {
    hide Exec, Step, Size, Fresh, Done, Frame, Bounded, Steps, Grown, Runs, FreshAll, NodeFresh, Unexplored, GroupIds;
    var g := base + 2 * Size(t);
    SizeOf(t);
    FreshParts(c, t, base);
    if Convertible(t.op) {
      var c1 := ExploreInputs(c, rest + [ApplyRuleTo(RuleFor(t.op), g - 1, false)], t, base);
      StaysBounded(c, c1);
      c' := RuleRun(c1, rest, t, base);
      ConvertibleRun(c, rest, t, g, GroupIds(t.inputs, base), c1, c');
      GroupIdsInside(t.inputs, base);
      ExploredFrame(c, c1, c', base, g, Added(t));
    } else {
      NoRuleRun(c, rest, t, g, GroupIds(t.inputs, base));
      StaysPut(c, base);
      FrameWiden(c, c, base, base, base, g);
      FreshWithoutWinner(c, t, base);
      c' := c;
    }
  }

  lemma StaysBounded(c: Core, c1: Core)
    requires Bounded(c) && c1 == c.(explored := c1.explored)
    ensures Bounded(c1)
  {
  }

  /** The first two tasks of a convertible group, then exploration, then its rule. */
  lemma ConvertibleRun(c: Core, rest: seq<Task>, t: Plan, g: GroupId, gs: seq<GroupId>, c1: Core, c': Core)
    requires g > 0 && NodeFresh(c, t, g, gs) && Convertible(t.op) && |gs| == |t.inputs|
    requires Runs(c, rest + [ApplyRuleTo(RuleFor(t.op), g - 1, false)], ExploreTasks(gs), 2 * |gs|, c1)
    requires Runs(c1, rest, [ApplyRuleTo(RuleFor(t.op), g - 1, false)], 3 + StepCountAll(t.inputs), c')
    ensures Runs(c, rest, [OptimizeGroup(g)], StepCount(t), c')
  {
    hide Step, Steps, Runs, RuleTasks, ExecGroup, ExploreTasks;
    var apply, n := ApplyRuleTo(RuleFor(t.op), g - 1, false), 3 + StepCountAll(t.inputs);
    RunsThen(c, rest, [apply], ExploreTasks(gs), 2 * |gs|, c1, n, c');
    RuleTasksOf(c, g - 1);
    RunsOne(c, rest, OptimizeExpr(g - 1, false), 2 * |gs| + n, c');
    AsksForExpr(c, t, g, gs);
    RunsOne(c, rest, OptimizeGroup(g), 1 + (2 * |gs| + n), c');
  }

  lemma FreshParts(c: Core, t: Plan, base: nat)
    requires Fresh(c, t, base)
    ensures NodeFresh(c, t, base + 2 * Size(t), GroupIds(t.inputs, base))
    ensures Unexplored(c, GroupIds(t.inputs, base)) && FreshAll(c, t.inputs, base)
  {
  }

  /** First the tasks on top, then those below. */
  lemma RunsThen(c: Core, rest: seq<Task>, below: seq<Task>, top: seq<Task>, n1: nat, c1: Core, n2: nat, c2: Core)
    requires Runs(c, rest + below, top, n1, c1) && Runs(c1, rest, below, n2, c2)
    ensures Runs(c, rest, below + top, n1 + n2, c2)
  {
    hide Step;
    assert rest + (below + top) == (rest + below) + top;
    StepsAdd(OptState(c, rest + (below + top)), n1, n2);
  }

  /** The exploration before a rule leaves the plan below untouched. */
  lemma ExploreInputs(c: Core, rest: seq<Task>, t: Plan, base: nat) returns (c1: Core)
    requires Fresh(c, t, base)
    ensures var gs := GroupIds(t.inputs, base);
            && Runs(c, rest, ExploreTasks(gs), 2 * |gs|, c1)
            && c1 == c.(explored := c1.explored)
            && forall g :: g in c1.explored <==> g in c.explored || g in gs
    ensures FreshAll(c1, t.inputs, base)
    ensures NodeFresh(c1, t, base + 2 * Size(t), GroupIds(t.inputs, base))
  {
    hide Runs, Size, FreshAll, GroupIds;
    FreshParts(c, t, base);
    var gs := GroupIds(t.inputs, base);
    FreshAllSingle(c, t.inputs, base);
    GroupIdsInside(t.inputs, base);
    c1 := ExploreRuns(c, rest, gs);
    FreshAllExplored(c, c1, t.inputs, base, set g | g in gs);
  }

  /** Ids that belong to none of the plans below may be marked as explored. */
  ghost predicate NotBelow(x: nat, ts: seq<Plan>, base: nat)
    decreases ts
  {
    ts == [] || (!(base < x < base + 2 * Size(ts[0])) && NotBelow(x, ts[1..], base + 2 * Size(ts[0])))
  }

  lemma {:induction false} OwnIdsNotBelow(ts: seq<Plan>, base: nat, x: nat)
    requires x in GroupIds(ts, base) || x <= base || x >= base + 2 * SizeAll(ts)
    ensures NotBelow(x, ts, base)
    decreases ts
  {
    hide Size;
    if ts != [] {
      var mid := base + 2 * Size(ts[0]);
      GroupIdsInside(ts[1..], mid);
      OwnIdsNotBelow(ts[1..], mid, x);
    }
  }

  lemma {:induction false} FreshAllExplored(c: Core, c1: Core, ts: seq<Plan>, base: nat, marked: set<nat>)
    requires FreshAll(c, ts, base) && c1 == c.(explored := c1.explored)
    requires forall g :: g in c1.explored ==> g in c.explored || g in marked
    requires forall x :: x in marked ==> x in GroupIds(ts, base) || x <= base || x >= base + 2 * SizeAll(ts)
    ensures FreshAll(c1, ts, base)
    decreases ts
  {
    hide Fresh, Size, FreshAll;
    forall x | x in marked ensures NotBelow(x, ts, base) { OwnIdsNotBelow(ts, base, x); }
    FreshAllMarked(c, c1, ts, base, marked);
  }

  lemma {:induction false} FreshAllMarked(c: Core, c1: Core, ts: seq<Plan>, base: nat, marked: set<nat>)
    requires FreshAll(c, ts, base) && c1 == c.(explored := c1.explored)
    requires forall g :: g in c1.explored ==> g in c.explored || g in marked
    requires forall x :: x in marked ==> NotBelow(x, ts, base)
    ensures FreshAll(c1, ts, base)
    decreases ts
  {
    hide Fresh, Size;
    if ts != [] {
      FreshMarked(c, c1, ts[0], base, marked);
      FreshAllMarked(c, c1, ts[1..], base + 2 * Size(ts[0]), marked);
    }
  }

  lemma {:induction false} FreshMarked(c: Core, c1: Core, t: Plan, base: nat, marked: set<nat>)
    requires Fresh(c, t, base) && c1 == c.(explored := c1.explored)
    requires forall g :: g in c1.explored ==> g in c.explored || g in marked
    requires forall x :: x in marked ==> !(base < x < base + 2 * Size(t))
    ensures Fresh(c1, t, base)
    decreases t
  {
    hide Size, GroupIds, FreshAll;
    SizeOf(t);
    GroupIdsInside(t.inputs, base);
    forall x | x in marked ensures NotBelow(x, t.inputs, base) { OwnIdsNotBelow(t.inputs, base, x); }
    FreshAllMarked(c, c1, t.inputs, base, marked);
  }

  lemma ExploredFrame(c: Core, c1: Core, c': Core, base: nat, g: nat, k: nat)
    requires c1 == c.(explored := c1.explored) && Frame(c1, c', base, g) && Grown(c1, c', k)
    requires forall x :: x in c1.explored && x !in c.explored ==> base < x <= g
    requires forall x :: x in c.explored ==> x in c1.explored
    ensures Frame(c, c', base, g) && Grown(c, c', k)
  {
  }

  /** From the rule on: the physical expression, its inputs, and the winner. */
  lemma {:induction false} RuleRun(c: Core, rest: seq<Task>, t: Plan, base: nat) returns (c': Core)
    requires Convertible(t.op) && NodeFresh(c, t, base + 2 * Size(t), GroupIds(t.inputs, base))
    requires FreshAll(c, t.inputs, base) && Bounded(c) && base + 2 * Size(t) <= c.memo.counter
    ensures Runs(c, rest, [ApplyRuleTo(RuleFor(t.op), base + 2 * Size(t) - 1, false)], 3 + StepCountAll(t.inputs), c')
    ensures Done(c', t, base) && Frame(c, c', base, base + 2 * Size(t)) && Grown(c, c', Added(t))
    decreases t, 0
  {
    hide Exec, Step, Size, Done, Frame, Bounded, Steps, Grown, Runs, NodeFresh, GroupIds, FreshAll, InputCosts, SumFrom,
         Applied, Won, Convertible, PhysicalOf, StepCountAll, AddedAll, Fresh, DoneAll, HasWinner;
    SizeOf(t);
    var g, gs, ts := base + 2 * Size(t), GroupIds(t.inputs, base), t.inputs;
    var p, c2 := c.memo.counter + 1, Applied(c, t, g, gs);
    AppliedFacts(c, t, g, gs);
    GrownIsBounded(c, c2, 1);
    FreshAllFrame(c, c2, ts, base, g - 2, g);
    var costs := InputCosts(c2.memo, gs);
    assert gs[0..] == gs;
    var c3 := ChildrenRun(c2, rest, p, 0, costs, ts, base);
    KeepsNode(c2, c3, p, base, g - 2);
    c' := Won(c3, p, g, SumFrom(ZERO_COST, costs));
    WonFacts(c2, c3, p, g, SumFrom(ZERO_COST, costs), base, g - 2, AddedAll(ts));
    RuleRunSteps(c, rest, t, g, gs, c2, c3, costs, StepCountAll(ts), c');
    FrameWiden(c, c2, g - 2, g, base, g);
    FrameWiden(c2, c3, base, g - 2, base, g);
    FrameWiden(c3, c', g - 2, g, base, g);
    FrameJoin(c, c2, c3, base, g);
    FrameJoin(c, c3, c', base, g);
    GrownTrans(c, c2, c3, 1, AddedAll(ts));
    GrownTrans(c, c3, c', 1 + AddedAll(ts), 0);
    DoneAllFrame(c3, c', ts, base, g - 2, g);
    DoneFrom(c', t, base);
  }

  lemma FrameJoin(c: Core, c1: Core, c2: Core, lo: nat, hi: nat)
    requires Frame(c, c1, lo, hi) && Frame(c1, c2, lo, hi)
    ensures Frame(c, c2, lo, hi)
  {
  }

  lemma DoneFrom(c: Core, t: Plan, base: nat)
    requires Convertible(t.op) && NodeDone(c, t, base + 2 * Size(t), GroupIds(t.inputs, base)) && DoneAll(c, t.inputs, base)
    ensures Done(c, t, base)
  {
  }

  /** The state after the fitting rule was applied to the fresh expression of group `g`. */
  ghost function Applied(c: Core, t: Plan, g: GroupId, gs: seq<GroupId>): Core
    requires g > 0 && Convertible(t.op)
  {
    Core(WithExpr(c.memo, MemoNode(PhysicalOf(t.op), gs), g), MarkFired(c.fired, g - 1, RuleFor(t.op)), c.explored)
  }

  lemma AppliedFacts(c: Core, t: Plan, g: GroupId, gs: seq<GroupId>)
    requires g > 1 && NodeFresh(c, t, g, gs) && Convertible(t.op) && Bounded(c) && g <= c.memo.counter
    ensures Exec(c, ApplyRuleTo(RuleFor(t.op), g - 1, false)) ==
            (Applied(c, t, g, gs), [OptimizeInputs(c.memo.counter + 1, None, true)])
    ensures var c2 := Applied(c, t, g, gs); Frame(c, c2, g - 2, g) && Grown(c, c2, 1)
    ensures NewInputs(Applied(c, t, g, gs).memo, c.memo.counter + 1, t, g, gs)
  {
    hide Exec, Frame, Grown, Applied, NewInputs, Bounded;
    AppliedExec(c, t, g, gs);
    AppliedFrame(c, t, g, gs);
    AppliedGrown(c, t, g, gs);
    AppliedNew(c, t, g, gs);
  }

  /** The newest expression is the physical counterpart, in a group without a winner. */
  ghost predicate NewInputs(m: Memo, p: ExprId, t: Plan, g: GroupId, gs: seq<GroupId>) {
    && Convertible(t.op) && m.counter == p
    && p in m.nodes && m.nodes[p] == MemoNode(PhysicalOf(t.op), gs)
    && p in m.groupOf && m.groupOf[p] == g
    && g in m.groups && m.groups[g].winner == None
  }

  lemma AppliedExec(c: Core, t: Plan, g: GroupId, gs: seq<GroupId>)
    requires g > 1 && NodeFresh(c, t, g, gs) && Convertible(t.op)
    ensures Exec(c, ApplyRuleTo(RuleFor(t.op), g - 1, false)) ==
            (Applied(c, t, g, gs), [OptimizeInputs(c.memo.counter + 1, None, true)])
  {
    hide ExecGroup, ExecExplore, ExecInputs, RuleTasks, Bindings, ExecApply, WithExpr;
    ApplyOnce(c, g - 1);
  }

  lemma AppliedFrame(c: Core, t: Plan, g: GroupId, gs: seq<GroupId>)
    requires g > 1 && NodeFresh(c, t, g, gs) && Convertible(t.op) && Bounded(c)
    ensures Frame(c, Applied(c, t, g, gs), g - 2, g)
  {
  }

  lemma AppliedGrown(c: Core, t: Plan, g: GroupId, gs: seq<GroupId>)
    requires g > 1 && NodeFresh(c, t, g, gs) && Convertible(t.op) && Bounded(c)
    ensures Grown(c, Applied(c, t, g, gs), 1)
  {
  }

  lemma AppliedNew(c: Core, t: Plan, g: GroupId, gs: seq<GroupId>)
    requires g > 1 && NodeFresh(c, t, g, gs) && Convertible(t.op)
    ensures NewInputs(Applied(c, t, g, gs).memo, c.memo.counter + 1, t, g, gs)
  {
  }

  /** The state after expression `p` became the winner of group `g`. */
  ghost function Won(c: Core, p: ExprId, g: GroupId, cost: Cost): Core {
    c.(memo := WithWinner(c.memo, g, Winner(false, p, cost)))
  }

  lemma WonFacts(c2: Core, c3: Core, p: ExprId, g: GroupId, cost: Cost, base: nat, hi: nat, k: nat)
    requires g == hi + 2 && Frame(c2, c3, base, hi) && Grown(c2, c3, k)
    requires p in c2.memo.groupOf && c2.memo.groupOf[p] == g
    requires g in c2.memo.groups && c2.memo.groups[g].winner == None
    ensures var c' := Won(c3, p, g, cost);
            && p in c3.memo.groupOf && c3.memo.groupOf[p] == g && GroupAt(c3.memo, g).winner == None
            && Frame(c3, c', hi, g) && Grown(c3, c', 0)
            && g in c'.memo.groups && HasWinner(c'.memo, g) && c'.memo.groups[g].winner.value.expr == p
            && c'.memo.nodes == c3.memo.nodes
  {
  }

  lemma RuleRunSteps(c: Core, rest: seq<Task>, t: Plan, g: GroupId, gs: seq<GroupId>, c2: Core, c3: Core,
                     costs: seq<Cost>, n: nat, c': Core)
    requires g > 0 && Convertible(t.op) && |t.inputs| == |gs|
    requires Exec(c, ApplyRuleTo(RuleFor(t.op), g - 1, false)) == (c2, [OptimizeInputs(c.memo.counter + 1, None, true)])
    requires var p := c.memo.counter + 1;
             && p in c2.memo.nodes && c2.memo.nodes[p].children == gs && costs == InputCosts(c2.memo, gs)
             && p in c3.memo.nodes && c3.memo.nodes[p].children == gs
             && p in c3.memo.groupOf && c3.memo.groupOf[p] == g && GroupAt(c3.memo, g).winner == None
             && Steps(OptState(c2, rest + [OptimizeInputs(p, Some(Continue(0, costs, false)), true)]), n)
                == OptState(c3, rest + [OptimizeInputs(p, Some(Continue(|gs|, costs, false)), true)])
             && c' == Won(c3, p, g, SumFrom(ZERO_COST, costs))
    ensures Runs(c, rest, [ApplyRuleTo(RuleFor(t.op), g - 1, false)], 3 + n, c')
  {
    hide Step, Steps, InputCosts, SumFrom, ExecApply, WithWinner;
    var p := c.memo.counter + 1;
    var first := OptimizeInputs(p, Some(Continue(0, costs, false)), true);
    var last := OptimizeInputs(p, Some(Continue(|gs|, costs, false)), true);
    assert Exec(c3, last) == (c', []);
    RunsNothing(c', rest);
    RunsOne(c3, rest, last, 0, c');
    StepsAdd(OptState(c2, rest + [first]), n, 1);
    assert Exec(c2, OptimizeInputs(p, None, true)) == (c2, [first]);
    RunsOne(c2, rest, OptimizeInputs(p, None, true), n + 1, c');
    RunsOne(c, rest, ApplyRuleTo(RuleFor(t.op), g - 1, false), 2 + n, c');
  }

  lemma AsksForExpr(c: Core, t: Plan, g: GroupId, gs: seq<GroupId>)
    requires g > 0 && NodeFresh(c, t, g, gs)
    ensures Exec(c, OptimizeGroup(g)) == (c, [OptimizeExpr(g - 1, false)])
  {
    hide RuleTasks, Ascending, ExecApply, ExecExplore, ExecInputs;
    AscendingSingle(g - 1);
    var exprs := [g - 1];
    assert exprs[1..] == [];
    assert ExprTasks(c.memo, exprs, false) == [OptimizeExpr(g - 1, false)];
    assert InputTasks(c.memo, exprs) == [];
  }

  /** A statement no rule knows: two tasks, and nothing changes. */
  lemma NoRuleRun(c: Core, rest: seq<Task>, t: Plan, g: GroupId, gs: seq<GroupId>)
    requires g > 0 && NodeFresh(c, t, g, gs) && !Convertible(t.op)
    ensures Runs(c, rest, [OptimizeGroup(g)], 2, c)
  {
    hide Step, Steps, RuleTasks, ExecGroup;
    AsksForExpr(c, t, g, gs);
    RuleTasksOf(c, g - 1);
    RunsNothing(c, rest);
    RunsOne(c, rest, OptimizeExpr(g - 1, false), 0, c);
    RunsOne(c, rest, OptimizeGroup(g), 1, c);
  }

  lemma FreshWithoutWinner(c: Core, t: Plan, base: nat)
    requires Fresh(c, t, base) && !Convertible(t.op)
    ensures Done(c, t, base)
  {
  }

  // ---- entering a plan -----------------------------------------------------

  /** The optimizer right after a plan was entered, before its first task. */
  ghost function Initial(t: Plan): Core { Core(Entered(EMPTY_MEMO, t), map[], {}) }

  const EMPTY_MEMO := Memo(map[], map[], map[], 0)

  ghost function OfMemo(m: Memo): Core { Core(m, map[], {}) }

  /** Entering more plans only adds ids above the counter. */
  lemma {:induction false} EnteredFrame(m: Memo, t: Plan)
    requires Bounded(OfMemo(m))
    ensures Bounded(OfMemo(Entered(m, t)))
    ensures Extends(m, Entered(m, t), Size(t))
    decreases t
  {
    hide Size, GroupIds, Bounded;
    SizeOf(t);
    EnteredAllFrame(m, t.inputs);
    WithGroupExtends(EnteredAll(m, t.inputs), MemoNode(t.op, GroupIds(t.inputs, m.counter)));
    ExtendsTrans(m, EnteredAll(m, t.inputs), Entered(m, t), SizeAll(t.inputs), 1);
  }

  lemma {:induction false} EnteredAllFrame(m: Memo, ts: seq<Plan>)
    requires Bounded(OfMemo(m))
    ensures Bounded(OfMemo(EnteredAll(m, ts)))
    ensures Extends(m, EnteredAll(m, ts), SizeAll(ts))
    decreases ts
  {
    hide Size, Entered, Bounded;
    if ts != [] {
      EnteredFrame(m, ts[0]);
      EnteredAllFrame(Entered(m, ts[0]), ts[1..]);
      ExtendsTrans(m, Entered(m, ts[0]), EnteredAll(m, ts), Size(ts[0]), SizeAll(ts[1..]));
    }
  }

  /** `m'` holds everything `m` does, and `k` more expressions and groups. */
  ghost predicate Extends(m: Memo, m': Memo, k: nat) {
    && (forall e :: e in m.nodes ==> e in m'.nodes && m'.nodes[e] == m.nodes[e])
    && (forall e :: e in m.groupOf ==> e in m'.groupOf && m'.groupOf[e] == m.groupOf[e])
    && (forall g :: g in m.groups ==> g in m'.groups && m'.groups[g] == m.groups[g])
    && |m'.nodes| == |m.nodes| + k && |m'.groups| == |m.groups| + k
  }

  lemma ExtendsTrans(m: Memo, m1: Memo, m2: Memo, a: nat, b: nat)
    requires Extends(m, m1, a) && Extends(m1, m2, b)
    ensures Extends(m, m2, a + b)
  {
  }

  lemma WithGroupExtends(m: Memo, node: MemoNode)
    requires Bounded(OfMemo(m))
    ensures Bounded(OfMemo(WithGroup(m, node))) && Extends(m, WithGroup(m, node), 1)
    ensures var m', e, g := WithGroup(m, node), m.counter + 1, m.counter + 2;
            && g in m'.groups && m'.groups[g] == Group({e}, None)
            && e in m'.nodes && m'.nodes[e] == node && e in m'.groupOf && m'.groupOf[e] == g
  {
    hide WithGroup, Bounded, Extends;
    NewIds(m);
    NewGroupBounded(m, node);
    NewGroupExtends(m, node);
  }

  lemma NewIds(m: Memo)
    requires Bounded(OfMemo(m))
    ensures var e, g := m.counter + 1, m.counter + 2; e !in m.nodes && e !in m.groupOf && g !in m.groups
  {
  }

  lemma NewGroupBounded(m: Memo, node: MemoNode)
    requires Bounded(OfMemo(m))
    ensures Bounded(OfMemo(WithGroup(m, node)))
  {
  }

  lemma NewGroupExtends(m: Memo, node: MemoNode)
    requires var e, g := m.counter + 1, m.counter + 2; e !in m.nodes && e !in m.groupOf && g !in m.groups
    ensures Extends(m, WithGroup(m, node), 1)
    ensures var m', e, g := WithGroup(m, node), m.counter + 1, m.counter + 2;
            && g in m'.groups && m'.groups[g] == Group({e}, None)
            && e in m'.nodes && m'.nodes[e] == node && e in m'.groupOf && m'.groupOf[e] == g
  {
  }

  lemma {:induction false} FreshExtends(m: Memo, m': Memo, k: nat, t: Plan, base: nat)
    requires Fresh(OfMemo(m), t, base) && Extends(m, m', k)
    ensures Fresh(OfMemo(m'), t, base)
    decreases t
  {
    hide Size, GroupIds, FreshAll;
    FreshAllExtends(m, m', k, t.inputs, base);
  }

  lemma {:induction false} FreshAllExtends(m: Memo, m': Memo, k: nat, ts: seq<Plan>, base: nat)
    requires FreshAll(OfMemo(m), ts, base) && Extends(m, m', k)
    ensures FreshAll(OfMemo(m'), ts, base)
    decreases ts
  {
    hide Size, Fresh, Extends;
    if ts != [] {
      FreshExtends(m, m', k, ts[0], base);
      FreshAllExtends(m, m', k, ts[1..], base + 2 * Size(ts[0]));
    }
  }

  /** An entered plan is laid out from the old counter on. */
  lemma {:induction false} EnteredIsFresh(m: Memo, t: Plan)
    requires Bounded(OfMemo(m)) && AllLogical(t)
    ensures Fresh(OfMemo(Entered(m, t)), t, m.counter)
    decreases t
  {
    hide Size, GroupIds, FreshAll, Bounded, Extends;
    SizeOf(t);
    EnteredAllFresh(m, t.inputs);
    EnteredAllFrame(m, t.inputs);
    var m1, node := EnteredAll(m, t.inputs), MemoNode(t.op, GroupIds(t.inputs, m.counter));
    WithGroupExtends(m1, node);
    FreshAllExtends(m1, WithGroup(m1, node), 1, t.inputs, m.counter);
  }

  lemma {:induction false} EnteredAllFresh(m: Memo, ts: seq<Plan>)
    requires Bounded(OfMemo(m)) && forall i :: 0 <= i < |ts| ==> AllLogical(ts[i])
    ensures FreshAll(OfMemo(EnteredAll(m, ts)), ts, m.counter)
    decreases ts
  {
    hide Size, Entered, Fresh, Bounded, Extends;
    if ts != [] {
      var m1 := Entered(m, ts[0]);
      EnteredIsFresh(m, ts[0]);
      EnteredFrame(m, ts[0]);
      EnteredAllFresh(m1, ts[1..]);
      EnteredAllFrame(m1, ts[1..]);
      FreshExtends(m1, EnteredAll(m1, ts[1..]), SizeAll(ts[1..]), ts[0], m.counter);
    }
  }

  // ---- the result ----------------------------------------------------------

  /** The best plan of an optimized group: the physical counterpart of the plan when all
      its operators are known to some rule, and otherwise no plan can be read. */
  lemma {:induction false} BestPlanOf(c: Core, t: Plan, base: nat)
    requires Done(c, t, base)
    ensures BestPlan(c.memo, base + 2 * Size(t)) == if AllConvertible(t) then Some(PhysicalPlan(t)) else None
    decreases t, 1
  {
    hide Size, GroupIds, DoneAll;
    if Convertible(t.op) {
      SizeOf(t);
      BestPlansOf(c, t.inputs, base, base + 2 * Size(t));
    }
  }

  lemma {:induction false} BestPlansOf(c: Core, ts: seq<Plan>, base: nat, bound: nat)
    requires DoneAll(c, ts, base) && base + 2 * SizeAll(ts) < bound
    ensures BestPlans(c.memo, GroupIds(ts, base), bound) ==
            if forall i :: 0 <= i < |ts| ==> AllConvertible(ts[i]) then Some(PhysicalPlans(ts)) else None
    decreases ts
  {
    hide Size, Done, BestPlan, PhysicalPlan, AllConvertible;
    if ts != [] {
      BestPlanOf(c, ts[0], base);
      BestPlansOf(c, ts[1..], base + 2 * Size(ts[0]), bound);
      assert (forall i :: 0 <= i < |ts| ==> AllConvertible(ts[i])) <==>
             AllConvertible(ts[0]) && forall i :: 0 <= i < |ts[1..]| ==> AllConvertible(ts[1..][i]) by {
        assert forall i :: 1 <= i < |ts| ==> ts[i] == ts[1..][i - 1];
      }
    }
  }

  /** The whole run: entered, the task of the top group executed to the end. */
  lemma OptimizerRun(t: Plan) returns (c: Core)
    requires AllLogical(t)
    ensures Steps(OptState(Initial(t), [OptimizeGroup(2 * Size(t))]), StepCount(t)) == OptState(c, [])
    ensures BestPlan(c.memo, 2 * Size(t)) == if AllConvertible(t) then Some(PhysicalPlan(t)) else None
    ensures |c.memo.groups| == Size(t) && |c.memo.nodes| == Size(t) + Added(t)
  {
    hide Steps, Size, BestPlan, Done, Entered, Fresh, Extends, Bounded, Frame, Grown, Added, StepCount, AllConvertible,
         AllLogical, PhysicalPlan;
    EmptyIsBounded();
    EnteredFrame(EMPTY_MEMO, t);
    EnteredIsFresh(EMPTY_MEMO, t);
    EnteredCounts(t);
    c := GroupRun(Initial(t), [], t, 0);
    BestPlanOf(c, t, 0);
    RunCounts(Initial(t), c, 2 * Size(t), Added(t));
    assert [] + [OptimizeGroup(2 * Size(t))] == [OptimizeGroup(2 * Size(t))];
  }

  lemma EmptyIsBounded()
    ensures Bounded(OfMemo(EMPTY_MEMO))
  {
  }

  lemma RunCounts(c: Core, c': Core, hi: nat, k: nat)
    requires Frame(c, c', 0, hi) && Grown(c, c', k)
    ensures |c'.memo.groups| == |c.memo.groups| && |c'.memo.nodes| == |c.memo.nodes| + k
  {
    hide Bounded;
    assert |c.memo.groups.Keys| == |c.memo.groups| && |c'.memo.groups.Keys| == |c'.memo.groups|;
  }

  lemma EnteredCounts(t: Plan)
    requires Extends(EMPTY_MEMO, Entered(EMPTY_MEMO, t), Size(t))
    ensures |Entered(EMPTY_MEMO, t).groups| == |Entered(EMPTY_MEMO, t).nodes| == Size(t)
  {
  }

  /** When a rule knows every operator: one expression added per node, and the stack
      empties after 9n - 4 tasks. */
  lemma {:induction false} ConvertibleCounts(t: Plan)
    requires AllConvertible(t)
    ensures Added(t) == Size(t) && StepCount(t) == 9 * Size(t) - 4
    decreases t
  {
    ConvertibleCountsAll(t.inputs);
  }

  lemma {:induction false} ConvertibleCountsAll(ts: seq<Plan>)
    requires forall i :: 0 <= i < |ts| ==> AllConvertible(ts[i])
    ensures AddedAll(ts) == SizeAll(ts) && 2 * |ts| + StepCountAll(ts) == 9 * SizeAll(ts)
    decreases ts
  {
    if ts != [] {
      ConvertibleCounts(ts[0]);
      ConvertibleCountsAll(ts[1..]);
    }
  }
}
