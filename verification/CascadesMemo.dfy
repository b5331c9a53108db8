/** The memo as the optimizer keeps it: tables from ids to expressions, groups and
    winners, filled and read in place. */
module CascadesMemo {
  import opened Options
  import opened RelPlan
  import opened CascadesModel
  import opened CascadesRun
  import opened CascadesInv

  /** Inserting does not replace an entry that is already there. */
  function InsertNew<K, V>(m: map<K, V>, k: K, v: V): map<K, V> { if k in m then m else m[k := v] }

  class Memo {
    var exprToGroup: map<ExprId, GroupId>
    var exprToNode: map<ExprId, MemoNode>
    var groups: map<GroupId, Group>
    var counter: nat

    ghost function State(): CascadesModel.Memo
      reads this
    {
      CascadesModel.Memo(exprToNode, exprToGroup, groups, counter)
    }

    /** No expression has an id that was not given out yet. */
    ghost predicate Valid()
      reads this
    {
      forall e :: e in exprToNode || e in exprToGroup ==> e <= counter
    }

    constructor ()
      ensures Valid() && State() == EMPTY_MEMO
    {
      exprToGroup, exprToNode, groups, counter := map[], map[], map[], 0;
    }

    /** Expression ids and group ids come from the same counter. */
    method NextId() returns (id: nat)
      requires Valid()
      modifies `counter
      ensures Valid() && id == counter == old(counter) + 1
    {
      counter := counter + 1;
      id := counter;
    }

    method AddExprToGroup(e: ExprId, g: GroupId)
      modifies `groups
      ensures groups == AddToGroup(old(groups), g, e)
    {
      if g in groups {
        groups := groups[g := groups[g].(exprs := groups[g].exprs + {e})];
      } else {
        groups := groups[g := Group({e}, None)];
      }
    }

    /** Enters a plan bottom-up: one group and one expression for every node, the ids of
        a node above those of its inputs. */
    method InitMemo(node: Plan) returns (group: GroupId, expr: ExprId)
      requires Valid()
      modifies this
      ensures Valid() && State() == Entered(old(State()), node)
      ensures group == old(counter) + 2 * Size(node) && expr == group - 1
      decreases node
    {
      hide Size, Entered;
      ghost var m := State();
      var children := [];
      var i := 0;
      assert node.inputs[0..] == node.inputs;
      while i < |node.inputs|
        invariant 0 <= i <= |node.inputs| && Valid()
        invariant EnteredAll(State(), node.inputs[i..]) == EnteredAll(m, node.inputs)
        invariant children + GroupIds(node.inputs[i..], counter) == GroupIds(node.inputs, m.counter)
      {
        ghost var rest, before := node.inputs[i..], State();
        var child, _ := InitMemo(node.inputs[i]);
        assert rest[0] == node.inputs[i] && rest[1..] == node.inputs[i + 1..];
        assert children + ([child] + GroupIds(rest[1..], counter)) == (children + [child]) + GroupIds(rest[1..], counter);
        children := children + [child];
        i := i + 1;
      }
      assert node.inputs[i..] == [];
      assert children + [] == children;
      expr, group := AddNode(node, m, children);
    }

    /** The entry of the node itself, after those of its inputs. */
    method AddNode(node: Plan, ghost m: CascadesModel.Memo, children: seq<GroupId>) returns (e: ExprId, g: GroupId)
      requires Valid() && State() == EnteredAll(m, node.inputs) && children == GroupIds(node.inputs, m.counter)
      modifies this
      ensures Valid() && State() == Entered(m, node)
      ensures g == m.counter + 2 * Size(node) && e == g - 1
    {
      e := NextId();
      g := NextId();
      exprToNode := InsertNew(exprToNode, e, MemoNode(node.op, children));
      exprToGroup := InsertNew(exprToGroup, e, g);
      AddExprToGroup(e, g);
    }

    /** A new expression of an existing group; its inputs are the groups its placeholder
        inputs stand for. Without a group nothing happens. */
    method AddNewGroupExpr(node: Plan, group: Option<GroupId>) returns (g: GroupId, e: ExprId)
      requires Valid()
      modifies this
      ensures Valid()
      ensures group == None ==> g == e == 0 && State() == old(State())
      ensures group.Some? ==>
                && g == group.value && e == old(counter) + 1
                && State() == WithExpr(old(State()), MemoNode(node.op, HeldGroups(node.inputs)), g)
    {
      if group == None { return 0, 0; }
      var children := [];
      var i := 0;
      assert node.inputs[0..] == node.inputs;
      while i < |node.inputs|
        invariant 0 <= i <= |node.inputs|
        invariant children + HeldGroups(node.inputs[i..]) == HeldGroups(node.inputs)
      {
        ghost var rest := node.inputs[i..];
        assert rest[0] == node.inputs[i] && rest[1..] == node.inputs[i + 1..];
        if node.inputs[i].op.GroupHolder? {
          ghost var g := node.inputs[i].op.group;
          assert children + ([g] + HeldGroups(rest[1..])) == (children + [g]) + HeldGroups(rest[1..]);
          children := children + [node.inputs[i].op.group];
        } else {
          assert [] + HeldGroups(rest[1..]) == HeldGroups(rest[1..]);
        }
        i := i + 1;
      }
      assert node.inputs[i..] == [] && children + [] == children;
      g := group.value;
      e := NextId();
      exprToNode := InsertNew(exprToNode, e, MemoNode(node.op, children));
      exprToGroup := InsertNew(exprToGroup, e, g);
      AddExprToGroup(e, g);
    }

    /** The members of a group in ascending order, none for an unknown group. */
    method GetAllExprsInGroup(g: GroupId) returns (exprs: seq<ExprId>)
      ensures exprs == ExprsInGroup(State(), g)
      ensures forall e :: e in exprs <==> e in GroupAt(State(), g).exprs
    {
      AscendingSpec(GroupAt(State(), g).exprs);
      if g !in groups { return []; }
      exprs := Ascending(groups[g].exprs);
    }

    method GetExprMemoNode(e: ExprId) returns (node: MemoNode)
      requires e in exprToNode
      ensures node == NodeAt(State(), e)
    {
      node := exprToNode[e];
    }

    method GetGroupId(e: ExprId) returns (g: Option<GroupId>)
      ensures g == if e in exprToGroup then Some(exprToGroup[e]) else None
    {
      if e !in exprToGroup { return None; }
      g := Some(exprToGroup[e]);
    }

    /** Asking about an unknown group creates it. */
    method GetWinner(g: GroupId) returns (winner: Option<Winner>)
      modifies `groups
      ensures winner == GroupAt(old(State()), g).winner
      ensures groups == old(groups)[g := GroupAt(old(State()), g)]
      ensures g in old(groups) ==> State() == old(State())
    {
      if g !in groups { groups := groups[g := Group({}, None)]; }
      winner := groups[g].winner;
    }

    method UpdateWinner(g: GroupId, winner: Winner)
      modifies `groups
      ensures State() == WithWinner(old(State()), g, winner)
    {
      if g !in groups { groups := groups[g := Group({}, None)]; }
      groups := groups[g := groups[g].(winner := Some(winner))];
    }

    /** Reads the best plan from the winners, top-down. */
    method GetBestPlan(g: GroupId) returns (plan: Option<Plan>)
      requires MemoOk(State()) && g in groups
      ensures plan == BestPlan(State(), g)
      decreases g
    {
      hide IdsOk, MembersOk, NodeOk, WinnerOk;
      var winner := groups[g].winner;
      if winner == None { return None; }
      WinnerInputs(State(), g);
      var node := GetExprMemoNode(winner.value.expr);
      var inputs := [];
      var i := 0;
      assert node.children[0..] == node.children;
      PrependNothing(BestPlans(State(), node.children, g));
      while i < |node.children|
        invariant 0 <= i <= |node.children|
        invariant BestPlans(State(), node.children, g) == Prepend(inputs, BestPlans(State(), node.children[i..], g))
      {
        ghost var rest := node.children[i..];
        assert rest[0] == node.children[i] && rest[1..] == node.children[i + 1..];
        var input := GetBestPlan(node.children[i]);
        if input == None { return None; }
        PrependOne(inputs, input.value, BestPlans(State(), rest[1..], g));
        inputs := inputs + [input.value];
        i := i + 1;
      }
      assert node.children[i..] == [] && inputs + [] == inputs;
      plan := Some(Plan(node.op, inputs));
    }
  }

  ghost function Prepend(front: seq<Plan>, rest: Option<seq<Plan>>): Option<seq<Plan>> {
    match rest
    case None => None
    case Some(ps) => Some(front + ps)
  }

  lemma PrependNothing(rest: Option<seq<Plan>>)
    ensures Prepend([], rest) == rest
  {
    if rest.Some? { assert [] + rest.value == rest.value; }
  }

  lemma PrependOne(front: seq<Plan>, p: Plan, rest: Option<seq<Plan>>)
    ensures Prepend(front, Prepend([p], rest)) == Prepend(front + [p], rest)
  {
    if rest.Some? { assert front + ([p] + rest.value) == (front + [p]) + rest.value; }
  }

  /** A winner belongs to its group, so its inputs are older groups. */
  lemma WinnerInputs(m: CascadesModel.Memo, g: GroupId)
    requires MemoOk(m) && g in m.groups && m.groups[g].winner.Some?
    ensures var e := m.groups[g].winner.value.expr;
            && e in m.nodes
            && forall i :: 0 <= i < |m.nodes[e].children| ==>
                 m.nodes[e].children[i] in m.groups && m.nodes[e].children[i] < g
  {
  }
}
