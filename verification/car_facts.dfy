/** Loading one car's facts: every row the state query returns for the car
    is turned into a column-to-value dict and passed to `set_facts`, so the
    rows are applied in result order and the last row wins. */
module CarFacts {
  import opened Dict
  import opened PyValue
  import opened FactsMapper

  /** The columns the state query selects, in select order. */
  const Columns: seq<string> :=
    ["car_id", "timestamp", "gear", "accelerator_pressed", "indicator_left_on",
     "indicator_right_on", "traffic_light", "intersection", "other_vehicle_approaching",
     "pedestrian_crossing", "pedestrian_present", "current_speed", "speed_limit",
     "merge_lane_clear", "engine_off"]

  /** The selected columns are exactly the schema of a fresh mapper. */
  lemma ColumnsAreSchema()
    ensures Columns == Schema
    ensures forall i, j :: 0 <= i < j < |Columns| ==> Columns[i] != Columns[j]
  {
    SchemaDistinct();
  }

  /** One result row as a dict: each selected column, in column order,
      mapped to the row's value at the same position. */
  function RowDict(row: seq<Value>): (d: Dict<string, Value>)
    requires |row| == |Columns|
    ensures Valid(d) && d.keys == Columns
    ensures forall i :: 0 <= i < |Columns| ==> d.vals[Columns[i]] == row[i]
  {
    ColumnsAreSchema();
    Zip(Columns, row)
  }

  /** The row loop of `get_facts`. */
  function GetFacts(store: Store, rows: seq<seq<Value>>): (r: Store)
    requires Valid(store)
    requires forall i :: 0 <= i < |rows| ==> |rows[i]| == |Columns|
    ensures Valid(r) && r.keys == store.keys
    ensures |rows| == 0 ==> r == store
    ensures |rows| > 0 ==> forall i :: 0 <= i < |Columns| && Columns[i] in r.vals ==>
      r.vals[Columns[i]] == Coerce(rows[|rows| - 1][i])
    ensures forall k :: k in r.vals && k !in Columns ==> r.vals[k] == store.vals[k]
  {
    if |rows| == 0 then store
    else
      var before := GetFacts(store, rows[..|rows| - 1]);
      SetFacts(before, RowDict(rows[|rows| - 1]))
  }

  /** On a mapper holding exactly the selected columns (a fresh one, by
      `ColumnsAreSchema`), the loaded facts are exactly the last row, with
      'true'/'false' strings read as booleans. */
  lemma GetFactsLastRow(store: Store, rows: seq<seq<Value>>)
    requires Valid(store) && store.keys == Columns
    requires |rows| > 0
    requires forall i :: 0 <= i < |rows| ==> |rows[i]| == |Columns|
    ensures var r := GetFacts(store, rows);
      r.keys == Columns &&
      forall i :: 0 <= i < |Columns| ==>
          Columns[i] in r.vals && r.vals[Columns[i]] == Coerce(rows[|rows| - 1][i])
  {
    var r := GetFacts(store, rows);
    LastRowWins(r, rows[|rows| - 1]);
  }

  lemma LastRowWins(r: Store, last: seq<Value>)
    requires Valid(r) && r.keys == Columns && |last| == |Columns|
    requires forall i :: 0 <= i < |Columns| && Columns[i] in r.vals ==>
        r.vals[Columns[i]] == Coerce(last[i])
    ensures forall i :: 0 <= i < |Columns| ==>
        Columns[i] in r.vals && r.vals[Columns[i]] == Coerce(last[i])
  {
    forall i | 0 <= i < |Columns|
      ensures Columns[i] in r.vals && r.vals[Columns[i]] == Coerce(last[i])
    {
      assert r.keys[i] == Columns[i];
    }
  }
}
