/** Loading the rule catalog: the rows of the joined rules/conditions query
    are grouped by rule id into a dict from rule id to the rule's name and
    its ordered conditions. */
module RuleCatalog {
  import opened Basics
  import opened Dict

  /** One row of the rules/conditions join, in the order the query returns. */
  datatype RuleRow = RuleRow(
    ruleId: int, ruleName: string, action: string, description: string,
    conditionKey: string, operator: string, conditionValue: string, logicalOperator: string)

  /** A condition as stored in a rule; `logicalOperator` is carried but
      never consulted. */
  datatype Condition =
      Condition(key: string, operator: string, value: string, logicalOperator: string)

  datatype Rule = Rule(name: string, conditions: seq<Condition>)

  type Catalog = Dict<int, Rule>

  function ConditionOf(row: RuleRow): Condition {
    Condition(row.conditionKey, row.operator, row.conditionValue, row.logicalOperator)
  }

  ghost predicate Occurs(rows: seq<RuleRow>, k: int) {
    exists i :: 0 <= i < |rows| && rows[i].ruleId == k
  }

  /** The position of the first row of rule `k`. */
  function FirstIndex(rows: seq<RuleRow>, k: int): (r: nat)
    requires Occurs(rows, k)
    ensures r < |rows| && rows[r].ruleId == k
    ensures forall i :: 0 <= i < r ==> rows[i].ruleId != k
  {
    if rows[0].ruleId == k then 0
    else
      assert Occurs(rows[1..], k) by {
        var i :| 0 <= i < |rows| && rows[i].ruleId == k;
        assert rows[1..][i - 1] == rows[i];
      }
      1 + FirstIndex(rows[1..], k)
  }

  /** The conditions of the rows of rule `k`, in row order. */
  function ConditionsOf(rows: seq<RuleRow>, k: int): seq<Condition> {
    if |rows| == 0 then []
    else
      var last := rows[|rows| - 1];
      ConditionsOf(rows[..|rows| - 1], k) + (if last.ruleId == k then [ConditionOf(last)] else [])
  }

  /** One iteration of the grouping loop: create the rule on its first row,
      then append the row's condition. */
  function AddRow(c: Catalog, row: RuleRow): (r: Catalog)
    requires Valid(c)
    ensures Valid(r)
  {
    var id := row.ruleId;
    if id in c.vals then
        Put(c, id, Rule(c.vals[id].name, c.vals[id].conditions + [ConditionOf(row)]))
    else Put(c, id, Rule(row.ruleName, [ConditionOf(row)]))
  }

  /** `c` is the grouping of `rows`: one entry per distinct rule id,
      ordered by first appearance, named after the rule's first row and
      holding exactly its rows' conditions in order. */
  ghost predicate Grouped(rows: seq<RuleRow>, c: Catalog) {
    && Valid(c)
    && (forall k :: k in c.vals <==> Occurs(rows, k))
    && (forall i, j :: 0 <= i < j < |c.keys| ==>
          FirstIndex(rows, c.keys[i]) < FirstIndex(rows, c.keys[j]))
    && (forall k :: k in c.vals ==> c.vals[k].name == rows[FirstIndex(rows, k)].ruleName)
    && (forall k :: k in c.vals ==> c.vals[k].conditions == ConditionsOf(rows, k))
  }

  /** `fetch_rules_and_conditions` on the query result `rows`. */
  function FetchRulesAndConditions(rows: seq<RuleRow>): (c: Catalog)
    ensures Valid(c)
    ensures forall k :: k in c.vals <==> Occurs(rows, k)
    ensures forall i, j :: 0 <= i < j < |c.keys| ==>
      FirstIndex(rows, c.keys[i]) < FirstIndex(rows, c.keys[j])
    ensures forall k :: k in c.vals ==> c.vals[k].name == rows[FirstIndex(rows, k)].ruleName
    ensures forall k :: k in c.vals ==> c.vals[k].conditions == ConditionsOf(rows, k)
  {
    if |rows| == 0 then Empty()
    else
      var before := FetchRulesAndConditions(rows[..|rows| - 1]);
      AddRowStep(rows, before);
      AddRow(before, rows[|rows| - 1])
  }

  /** The grouping invariant survives the last row. */
  lemma AddRowStep(rows: seq<RuleRow>, c: Catalog)
    requires |rows| > 0 && Grouped(rows[..|rows| - 1], c)
    ensures Grouped(rows, AddRow(c, rows[|rows| - 1]))
  {
    var prefix, row := rows[..|rows| - 1], rows[|rows| - 1];
    assert prefix + [row] == rows;
    AddRowSnoc(prefix, row, c);
  }

  lemma AddRowSnoc(prefix: seq<RuleRow>, row: RuleRow, c: Catalog)
    requires Grouped(prefix, c)
    ensures Grouped(prefix + [row], AddRow(c, row))
  {
    OccursSnoc(prefix, row);
    ConditionsSnoc(prefix, row);
    if row.ruleId in c.vals {
      AddRowKnown(prefix, row, c);
    } else {
      AddRowNew(prefix, row, c);
    }
  }

  lemma ConditionsSnoc(prefix: seq<RuleRow>, row: RuleRow)
    ensures forall k ::
      ConditionsOf(prefix + [row], k) ==
          ConditionsOf(prefix, k) + (if row.ruleId == k then [ConditionOf(row)] else [])
  {
    assert (prefix + [row])[..|prefix|] == prefix;
  }

  lemma AddRowKnown(prefix: seq<RuleRow>, row: RuleRow, c: Catalog)
    requires Grouped(prefix, c) && row.ruleId in c.vals
    requires forall k :: Occurs(prefix + [row], k) <==> Occurs(prefix, k) || k == row.ruleId
    requires forall k :: Occurs(prefix, k) ==>
        FirstIndex(prefix + [row], k) == FirstIndex(prefix, k)
    requires forall k ::
      ConditionsOf(prefix + [row], k) ==
          ConditionsOf(prefix, k) + (if row.ruleId == k then [ConditionOf(row)] else [])
    ensures Grouped(prefix + [row], AddRow(c, row))
  {
    var rows := prefix + [row];
    var r := AddRow(c, row);
    assert r.keys == c.keys;
    forall k | k in r.vals
      ensures r.vals[k].name == rows[FirstIndex(rows, k)].ruleName
    {
      assert rows[FirstIndex(prefix, k)] == prefix[FirstIndex(prefix, k)];
    }
  }

  lemma AddRowNew(prefix: seq<RuleRow>, row: RuleRow, c: Catalog)
    requires Grouped(prefix, c) && row.ruleId !in c.vals
    requires forall k :: Occurs(prefix + [row], k) <==> Occurs(prefix, k) || k == row.ruleId
    requires forall k :: Occurs(prefix, k) ==>
        FirstIndex(prefix + [row], k) == FirstIndex(prefix, k)
    requires forall k ::
      ConditionsOf(prefix + [row], k) ==
          ConditionsOf(prefix, k) + (if row.ruleId == k then [ConditionOf(row)] else [])
    ensures Grouped(prefix + [row], AddRow(c, row))
  {
    var rows := prefix + [row];
    var r := AddRow(c, row);
    assert rows[|prefix|] == row;
    FirstIndexAt(rows, row.ruleId, |prefix|);
    assert r.keys == c.keys + [row.ruleId];
    assert ConditionsOf(prefix, row.ruleId) == [] by {
      if ConditionsOf(prefix, row.ruleId) != [] {
        NonEmptyConditionsOccur(prefix, row.ruleId);
      }
    }
    AddRowNewNames(prefix, row, c);
    AddRowNewOrder(prefix, row, c);
  }

  lemma AddRowNewNames(prefix: seq<RuleRow>, row: RuleRow, c: Catalog)
    requires Grouped(prefix, c) && row.ruleId !in c.vals
    requires forall k :: Occurs(prefix + [row], k) <==> Occurs(prefix, k) || k == row.ruleId
    requires forall k :: Occurs(prefix, k) ==>
        FirstIndex(prefix + [row], k) == FirstIndex(prefix, k)
    requires FirstIndex(prefix + [row], row.ruleId) == |prefix|
    ensures forall k :: k in AddRow(c, row).vals ==>
      AddRow(c, row).vals[k].name == (prefix + [row])[FirstIndex(prefix + [row], k)].ruleName
  {
    var rows := prefix + [row];
    var r := AddRow(c, row);
    forall k | k in r.vals
      ensures r.vals[k].name == rows[FirstIndex(rows, k)].ruleName
    {
      if k != row.ruleId {
        assert rows[FirstIndex(prefix, k)] == prefix[FirstIndex(prefix, k)];
      } else {
        assert rows[|prefix|] == row;
      }
    }
  }

  lemma AddRowNewOrder(prefix: seq<RuleRow>, row: RuleRow, c: Catalog)
    requires Grouped(prefix, c) && row.ruleId !in c.vals
    requires forall k :: Occurs(prefix + [row], k) <==> Occurs(prefix, k) || k == row.ruleId
    requires forall k :: Occurs(prefix, k) ==>
        FirstIndex(prefix + [row], k) == FirstIndex(prefix, k)
    requires FirstIndex(prefix + [row], row.ruleId) == |prefix|
    ensures forall i, j :: 0 <= i < j < |AddRow(c, row).keys| ==>
      FirstIndex(prefix + [row], AddRow(c, row).keys[i]) <
          FirstIndex(prefix + [row], AddRow(c, row).keys[j])
  {
    var rows := prefix + [row];
    var r := AddRow(c, row);
    var ks := c.keys;
    assert r.keys == ks + [row.ruleId];
    forall i, j | 0 <= i < j < |r.keys|
      ensures FirstIndex(rows, r.keys[i]) < FirstIndex(rows, r.keys[j])
    {
      OrderPair(prefix, row, c, i, j);
    }
  }

  lemma OrderPair(prefix: seq<RuleRow>, row: RuleRow, c: Catalog, i: nat, j: nat)
    requires Grouped(prefix, c) && row.ruleId !in c.vals
    requires forall k :: Occurs(prefix + [row], k) <==> Occurs(prefix, k) || k == row.ruleId
    requires forall k :: Occurs(prefix, k) ==>
        FirstIndex(prefix + [row], k) == FirstIndex(prefix, k)
    requires FirstIndex(prefix + [row], row.ruleId) == |prefix|
    requires i < j < |c.keys| + 1
    ensures var ks := c.keys + [row.ruleId];
      FirstIndex(prefix + [row], ks[i]) < FirstIndex(prefix + [row], ks[j])
  {
    var ks := c.keys + [row.ruleId];
    assert ks[i] == c.keys[i] && c.keys[i] in c.vals;
    var fi := FirstIndex(prefix, c.keys[i]);
    if j < |c.keys| {
      assert ks[j] == c.keys[j] && c.keys[j] in c.vals;
    } else {
      assert ks[j] == row.ruleId;
      assert fi < |prefix|;
    }
  }

  lemma NonEmptyConditionsOccur(rows: seq<RuleRow>, k: int)
    requires ConditionsOf(rows, k) != []
    ensures Occurs(rows, k)
  {
    var last := rows[|rows| - 1];
    if last.ruleId != k {
      NonEmptyConditionsOccur(rows[..|rows| - 1], k);
      var i :| 0 <= i < |rows| - 1 && rows[..|rows| - 1][i].ruleId == k;
      assert rows[i].ruleId == k;
    }
  }

  /** Appending a row adds its rule id and keeps every earlier first row. */
  lemma OccursSnoc(prefix: seq<RuleRow>, row: RuleRow)
    ensures forall k :: Occurs(prefix + [row], k) <==> Occurs(prefix, k) || k == row.ruleId
    ensures forall k :: Occurs(prefix, k) ==> FirstIndex(prefix + [row], k) == FirstIndex(prefix, k)
  {
    var rows := prefix + [row];
    forall k | Occurs(prefix, k)
      ensures Occurs(rows, k) && FirstIndex(rows, k) == FirstIndex(prefix, k)
    {
      var f := FirstIndex(prefix, k);
      assert rows[f] == prefix[f];
      FirstIndexAt(rows, k, f);
    }
    forall k
      ensures Occurs(rows, k) <==> Occurs(prefix, k) || k == row.ruleId
    {
      if Occurs(rows, k) && k != row.ruleId {
        var i :| 0 <= i < |rows| && rows[i].ruleId == k;
        assert i < |prefix| && prefix[i] == rows[i];
      }
      if k == row.ruleId {
        assert rows[|prefix|] == row;
      }
    }
  }

  /** A row of rule `k` with no earlier row of `k` is its first row. */
  lemma FirstIndexAt(rows: seq<RuleRow>, k: int, j: nat)
    requires j < |rows| && rows[j].ruleId == k
    requires forall i :: 0 <= i < j ==> rows[i].ruleId != k
    ensures Occurs(rows, k) && FirstIndex(rows, k) == j
  {
  }

  /** Every rule of a catalog has at least one condition, because a rule
      only enters the catalog through a row of the join. */
  lemma {:induction false} OccursHasConditions(rows: seq<RuleRow>, k: int)
    requires Occurs(rows, k)
    ensures |ConditionsOf(rows, k)| > 0
  {
    var last := rows[|rows| - 1];
    if last.ruleId != k {
      var i :| 0 <= i < |rows| && rows[i].ruleId == k;
      assert rows[..|rows| - 1][i].ruleId == k;
      OccursHasConditions(rows[..|rows| - 1], k);
    }
  }
}
