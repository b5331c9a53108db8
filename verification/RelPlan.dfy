/** Plan trees and the rules that turn logical operators into physical ones. */
module RelPlan {
  /** Tables, index ranges and expressions are shared objects; a plan only names them. */
  type Ref = nat

  datatype Operator =
    | LogicalTableScan(table: Ref, primaryRanges: seq<Ref>, primaryFilters: seq<Ref>, tableFilters: seq<Ref>)
    | LogicalFilter(conditions: seq<Ref>)
    | LogicalResultSet
    | LogicalStatement(kind: StatementKind)
    | PhysicalTableScan(table: Ref, primaryRanges: seq<Ref>, primaryFilters: seq<Ref>, tableFilters: seq<Ref>)
    | PhysicalFilter(conditions: seq<Ref>)
    | PhysicalResultSet
    | GroupHolder(group: nat)

  /** The logical operators no rule of the optimizer knows. */
  datatype StatementKind = CreateDatabase | CreateTable | Insert

  datatype Plan = Plan(op: Operator, inputs: seq<Plan>)

  datatype NodeType =
    | PlaceHolderType
    | LogicalTableScanType | LogicalFilterType | LogicalResultSetType | LogicalStatementType
    | PhysicalTableScanType | PhysicalFilterType | PhysicalResultSetType

  function TypeOf(op: Operator): NodeType {
    match op
    case LogicalTableScan(_, _, _, _) => LogicalTableScanType
    case LogicalFilter(_) => LogicalFilterType
    case LogicalResultSet => LogicalResultSetType
    case LogicalStatement(_) => LogicalStatementType
    case PhysicalTableScan(_, _, _, _) => PhysicalTableScanType
    case PhysicalFilter(_) => PhysicalFilterType
    case PhysicalResultSet => PhysicalResultSetType
    case GroupHolder(_) => PlaceHolderType
  }

  predicate IsLogical(op: Operator) {
    op.LogicalTableScan? || op.LogicalFilter? || op.LogicalResultSet? || op.LogicalStatement?
  }

  predicate IsPhysical(op: Operator) {
    op.PhysicalTableScan? || op.PhysicalFilter? || op.PhysicalResultSet?
  }

  // ---- rules ---------------------------------------------------------------

  datatype RuleMatcher =
    | MatchAndPickNode(nodeType: NodeType, children: seq<RuleMatcher>)
    | MatchNode(nodeType: NodeType, children: seq<RuleMatcher>)
    | PickOne(expand: bool)
    | PickMany
    | IgnoreOne
    | IgnoreMany

  /** The registered rules, in registration order. */
  datatype Rule = EnumerableResultSetRule | EnumerableFilterRule | EnumerableTableScanRule

  const RULES: seq<Rule> := [EnumerableResultSetRule, EnumerableFilterRule, EnumerableTableScanRule]

  function MatcherOf(rule: Rule): RuleMatcher {
    MatchAndPickNode(
      match rule
      case EnumerableResultSetRule => LogicalResultSetType
      case EnumerableFilterRule => LogicalFilterType
      case EnumerableTableScanRule => LogicalTableScanType,
      [IgnoreMany])
  }

  /** What a rule makes of the operator it matched. */
  function ApplyRule(rule: Rule, op: Operator): Operator
    requires MatcherOf(rule).nodeType == TypeOf(op)
  {
    match rule
    case EnumerableResultSetRule => PhysicalResultSet
    case EnumerableFilterRule => PhysicalFilter(op.conditions)
    case EnumerableTableScanRule =>
      PhysicalTableScan(op.table, op.primaryRanges, op.primaryFilters, op.tableFilters)
  }

  // ---- the physical counterpart of a plan ----------------------------------

  predicate Convertible(op: Operator) {
    op.LogicalTableScan? || op.LogicalFilter? || op.LogicalResultSet?
  }

  /** The physical operator with the same table, ranges, filters and conditions. */
  ghost function PhysicalOf(op: Operator): Operator
    requires Convertible(op)
  {
    match op
    case LogicalTableScan(table, ranges, primary, filters) => PhysicalTableScan(table, ranges, primary, filters)
    case LogicalFilter(conditions) => PhysicalFilter(conditions)
    case LogicalResultSet => PhysicalResultSet
  }

  ghost predicate AllLogical(t: Plan) {
    IsLogical(t.op) && forall i :: 0 <= i < |t.inputs| ==> AllLogical(t.inputs[i])
  }

  ghost predicate AllConvertible(t: Plan) {
    Convertible(t.op) && forall i :: 0 <= i < |t.inputs| ==> AllConvertible(t.inputs[i])
  }

  ghost predicate AllPhysical(t: Plan) {
    IsPhysical(t.op) && forall i :: 0 <= i < |t.inputs| ==> AllPhysical(t.inputs[i])
  }

  /** The same tree with every operator replaced by its physical counterpart. */
  ghost function PhysicalPlan(t: Plan): (p: Plan)
    requires AllConvertible(t)
    ensures AllPhysical(p) && |p.inputs| == |t.inputs|
  {
    Plan(PhysicalOf(t.op), PhysicalPlans(t.inputs))
  }

  ghost function PhysicalPlans(ts: seq<Plan>): (ps: seq<Plan>)
    requires forall i :: 0 <= i < |ts| ==> AllConvertible(ts[i])
    ensures |ps| == |ts|
    ensures forall i :: 0 <= i < |ps| ==> AllPhysical(ps[i]) && ps[i] == PhysicalPlan(ts[i])
  {
    if ts == [] then [] else [PhysicalPlan(ts[0])] + PhysicalPlans(ts[1..])
  }

  /** The physical plan `p` says what the logical plan `t` says, node for node: the same table with
      the same ranges and the same two lists of filters, the same conditions. */
  ghost predicate SaysSame(t: Plan, p: Plan) {
    && (match t.op
        case LogicalTableScan(_, _, _, _) =>
          && p.op.PhysicalTableScan? && p.op.table == t.op.table && p.op.primaryRanges == t.op.primaryRanges
          && p.op.primaryFilters == t.op.primaryFilters && p.op.tableFilters == t.op.tableFilters
        case LogicalFilter(_) => p.op.PhysicalFilter? && p.op.conditions == t.op.conditions
        case LogicalResultSet => p.op.PhysicalResultSet?
        case _ => false)
    && |p.inputs| == |t.inputs| && forall i :: 0 <= i < |t.inputs| ==> SaysSame(t.inputs[i], p.inputs[i])
  }

  /** There is one such plan. */
  lemma {:induction false} PhysicalSaysSame(t: Plan, p: Plan)
    requires AllConvertible(t)
    ensures SaysSame(t, p) <==> p == PhysicalPlan(t)
    decreases t
  {
    var q := PhysicalPlan(t);
    forall i | 0 <= i < |t.inputs| ensures SaysSame(t.inputs[i], q.inputs[i]) {
      PhysicalSaysSame(t.inputs[i], q.inputs[i]);
    }
    if SaysSame(t, p) {
      forall i | 0 <= i < |t.inputs| ensures p.inputs[i] == q.inputs[i] { PhysicalSaysSame(t.inputs[i], p.inputs[i]); }
      assert p.inputs == q.inputs;
    }
  }

  /** Number of nodes. */
  ghost function Size(t: Plan): (n: nat)
    ensures n > 0
  {
    1 + SizeAll(t.inputs)
  }

  ghost function SizeAll(ts: seq<Plan>): nat {
    if ts == [] then 0 else Size(ts[0]) + SizeAll(ts[1..])
  }
}
