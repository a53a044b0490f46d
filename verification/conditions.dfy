/** Evaluating a rule's conditions against the fact store. Each condition
    names a fact, an operator and a target; the target 'true'/'false' stands
    for 1/0, a target that names a fact stands for that fact's value, both
    sides are converted to float when the fact side converts, and `=`
    compares the two sides' texts while the orderings compare their values.
    The conditions are a conjunction evaluated left to right that stops at
    the first unmet one; any exception ends the evaluation. */
module Conditions {
  import opened Basics
  import opened Dict
  import opened Decimal
  import opened PyValue
  import opened FactsMapper
  import opened RuleCatalog

  /** `facts.get(key)`, with a missing key read as None. */
  function FactValue(store: Store, key: string): (v: Value)
    ensures key !in store.vals ==> v == Null
    ensures key in store.vals ==> v == store.vals[key]
  {
    match Get(store, key)
    case Some(v) => v
    case None => Null
  }

  /** The target after the 'true'/'false' rewrite and the fact-name
      lookup. A rewritten literal is an int, and an int is never a key of
      the store, so 'true' and 'false' are never looked up. */
  function Target(raw: string, store: Store): (v: Value)
    ensures raw == "true" ==> v == Int(1)
    ensures raw == "false" ==> v == Int(0)
    ensures raw != "true" && raw != "false" && raw in store.vals ==> v == store.vals[raw]
    ensures raw != "true" && raw != "false" && raw !in store.vals ==> v == Str(raw)
  {
    if raw == "true" then Int(1)
    else if raw == "false" then Int(0)
    else if raw in store.vals then store.vals[raw]
    else Str(raw)
  }

  /** Both sides are converted to float, the fact first; a failed
      conversion of a string is swallowed, but converting None or a
      datetime raises TypeError, which escapes. A fact that is not a
      number literal leaves both sides as they were; a target that is not
      one leaves the fact converted. */
  function Convert(fact: Value, target: Value): (r: Result<(Value, Value), Exception>)
    ensures r.Err? <==>
        fact.Null? || fact.Time? || (ToFloat(fact).Converted? && (target.Null? || target.Time?))
    ensures r.Err? ==> r.error == TypeError
    ensures r.Ok? && ToFloat(fact).NotNumeric? ==> r.value == (fact, target)
    ensures r.Ok? && ToFloat(fact).Converted? ==>
      r.value.0 == Float(ToFloat(fact).x) &&
      r.value.1 == (if ToFloat(target).Converted? then Float(ToFloat(target).x) else target)
  {
    match ToFloat(fact)
    case NotConvertible => Err(TypeError)
    case NotNumeric => Ok((fact, target))
    case Converted(x) =>
      match ToFloat(target)
      case NotConvertible => Err(TypeError)
      case NotNumeric => Ok((Float(x), target))
      case Converted(y) => Ok((Float(x), Float(y)))
  }

  /** The operators the evaluator knows. */
  predicate Supported(op: string) {
    op == "=" || op == "<=" || op == ">=" || op == "<" || op == ">"
  }

  /** Whether one condition is met, or the exception it raises. */
  function EvaluateCondition(c: Condition, store: Store): (r: Result<bool, Exception>)
    ensures FactValue(store, c.key) == Null ==> r == Err(TypeError)
    ensures !Supported(c.operator) ==> r.Err?
    ensures r.Err? ==> r.error == TypeError || r.error == UnsupportedOperator(c.operator)
    ensures r.Err? && r.error.UnsupportedOperator? ==> !Supported(c.operator)
    ensures Convert(FactValue(store, c.key), Target(c.value, store)).Err? ==> r == Err(TypeError)
    ensures (Convert(FactValue(store, c.key), Target(c.value, store)).Ok? &&
      !Supported(c.operator)) ==> r == Err(UnsupportedOperator(c.operator))
  {
    var fact := FactValue(store, c.key);
    var target := Target(c.value, store);
    match Convert(fact, target)
    case Err(e) => Err(e)
    case Ok(p) =>
      if c.operator == "=" then Ok(Show(p.0) == Show(p.1))
      else if c.operator == "<=" then Compare(Le, p.0, p.1)
      else if c.operator == ">=" then Compare(Ge, p.0, p.1)
      else if c.operator == "<" then Compare(Lt, p.0, p.1)
      else if c.operator == ">" then Compare(Gt, p.0, p.1)
      else Err(UnsupportedOperator(c.operator))
  }

  /** Two sides that both convert to float are equal under `=` exactly
      when they denote the same number: `40`, `40.0` and `"40.0"` agree. */
  lemma EqualsIsNumeric(c: Condition, store: Store)
    requires c.operator == "="
    requires ToFloat(FactValue(store, c.key)).Converted?
    requires ToFloat(Target(c.value, store)).Converted?
    ensures EvaluateCondition(c, store) ==
      Ok(SameValue(ToFloat(FactValue(store, c.key)).x, ToFloat(Target(c.value, store)).x))
  {
    var x, y := ToFloat(FactValue(store, c.key)).x, ToFloat(Target(c.value, store)).x;
    TextEqIffSameValue(x, y);
  }

  /** Two sides that both convert to float are ordered by value. */
  lemma OrderingIsNumeric(c: Condition, store: Store)
    requires c.operator in ["<=", ">=", "<", ">"]
    requires ToFloat(FactValue(store, c.key)).Converted?
    requires ToFloat(Target(c.value, store)).Converted?
    ensures var x, y := ToFloat(FactValue(store, c.key)).x, ToFloat(Target(c.value, store)).x;
      EvaluateCondition(c, store) == Ok(
        if c.operator == "<=" then LessEq(x, y)
        else if c.operator == ">=" then LessEq(y, x)
        else if c.operator == "<" then Less(x, y)
        else Less(y, x))
  {
  }

  /** A fact that is a non-numeric string is compared as text: `=` holds
      when the target's text is the fact itself, so `traffic_light = red`
      holds exactly when the light is the string `red`. */
  lemma EqualsIsTextual(c: Condition, store: Store)
    requires c.operator == "="
    requires FactValue(store, c.key).Str? && ToFloat(FactValue(store, c.key)).NotNumeric?
    ensures EvaluateCondition(c, store) ==
        Ok(FactValue(store, c.key).s == Show(Target(c.value, store)))
  {
  }

  /** Ordering a number against a string that is not a number raises
      TypeError, in either direction. */
  lemma OrderingMixedRaises(c: Condition, store: Store)
    requires c.operator in ["<=", ">=", "<", ">"]
    requires
      || (ToFloat(FactValue(store, c.key)).Converted? &&
            ToFloat(Target(c.value, store)).NotNumeric?)
      || (ToFloat(FactValue(store, c.key)).NotNumeric? && IsNumber(Target(c.value, store)))
    ensures EvaluateCondition(c, store) == Err(TypeError)
  {
  }

  /** A fact that is a non-numeric string is ordered against a string
      target by code points, as Python orders strings. */
  lemma OrderingIsTextual(c: Condition, store: Store)
    requires c.operator in ["<=", ">=", "<", ">"]
    requires FactValue(store, c.key).Str? && ToFloat(FactValue(store, c.key)).NotNumeric?
    requires Target(c.value, store).Str?
    ensures var a, b := FactValue(store, c.key).s, Target(c.value, store).s;
      EvaluateCondition(c, store) == Ok(
        if c.operator == "<=" then LexLess(a, b) || a == b
        else if c.operator == ">=" then LexLess(b, a) || a == b
        else if c.operator == "<" then LexLess(a, b)
        else LexLess(b, a))
  {
  }

  /** A datetime fact, such as the `timestamp` column, raises TypeError
      under every operator, since `float()` rejects it and only ValueError
      is caught; so does a datetime target next to a numeric fact. */
  lemma DatetimeRaises(c: Condition, store: Store)
    requires
      || FactValue(store, c.key).Time?
      || (ToFloat(FactValue(store, c.key)).Converted? && Target(c.value, store).Time?)
    ensures EvaluateCondition(c, store) == Err(TypeError)
  {
  }

  /** `x = true` holds exactly when the boolean fact `x` is True, and
      `x = false` exactly when it is False. */
  lemma BooleanLiterals(c: Condition, store: Store)
    requires c.operator == "=" && (c.value == "true" || c.value == "false")
    requires FactValue(store, c.key).Bool?
    ensures EvaluateCondition(c, store) ==
      Ok(FactValue(store, c.key).b == (c.value == "true"))
  {
    EqualsIsNumeric(c, store);
  }

  /** The outcome of one condition when the mapper may be None: reading
      facts from None raises AttributeError. */
  function Outcome(c: Condition, facts: Option<Store>): (r: Result<bool, Exception>)
    ensures facts.None? ==> r == Err(AttributeError)
    ensures facts.Some? ==> r == EvaluateCondition(c, facts.value)
  {
    match facts
    case None => Err(AttributeError)
    case Some(store) => EvaluateCondition(c, store)
  }

  /** Every condition in `cs` is met. */
  predicate AllMet(cs: seq<Condition>, facts: Option<Store>) {
    forall i :: 0 <= i < |cs| ==> Outcome(cs[i], facts) == Ok(true)
  }

  /** `evaluate_conditions`: True when every condition is met; otherwise
      the outcome of the first condition that is not met, which is False or
      the exception it raised. The logical operator column is not read. */
  function EvaluateConditions(conds: seq<Condition>, facts: Option<Store>)
    : (r: Result<bool, Exception>)
    ensures r == Ok(true) <==> AllMet(conds, facts)
    ensures r != Ok(true) ==>
      exists i :: 0 <= i < |conds| && AllMet(conds[..i], facts) && Outcome(conds[i], facts) == r
  {
    if |conds| == 0 then Ok(true)
    else
      var first := Outcome(conds[0], facts);
      if first != Ok(true) then
        assert AllMet(conds[..0], facts);
        first
      else
        var r := EvaluateConditions(conds[1..], facts);
        AllMetCons(conds, facts);
        if r != Ok(true) then
          var i :| 0 <= i < |conds[1..]| && AllMet(conds[1..][..i], facts) &&
              Outcome(conds[1..][i], facts) == r;
          AllMetShift(conds, i, facts);
          r
        else
          r
  }

  lemma AllMetCons(conds: seq<Condition>, facts: Option<Store>)
    requires |conds| > 0 && Outcome(conds[0], facts) == Ok(true)
    ensures AllMet(conds, facts) <==> AllMet(conds[1..], facts)
  {
    if AllMet(conds[1..], facts) {
      forall i | 0 <= i < |conds|
        ensures Outcome(conds[i], facts) == Ok(true)
      {
        if i > 0 {
          assert conds[i] == conds[1..][i - 1];
        }
      }
    }
  }

  lemma AllMetShift(conds: seq<Condition>, i: nat, facts: Option<Store>)
    requires |conds| > 0 && Outcome(conds[0], facts) == Ok(true)
    requires i < |conds| - 1 && AllMet(conds[1..][..i], facts)
    ensures AllMet(conds[..i + 1], facts)
  {
    var p := conds[..i + 1];
    forall j | 0 <= j < |p|
      ensures Outcome(p[j], facts) == Ok(true)
    {
      if j > 0 {
        assert p[j] == conds[1..][..i][j - 1];
      }
    }
  }

  /** Splitting a conjunction: the conditions after the first unmet one
      are never evaluated. */
  lemma {:induction false} EvaluateAppend(a: seq<Condition>, b: seq<Condition>,
                                        facts: Option<Store>)
    ensures EvaluateConditions(a + b, facts) ==
      if EvaluateConditions(a, facts) == Ok(true) then EvaluateConditions(b, facts)
      else EvaluateConditions(a, facts)
  {
    if |a| > 0 {
      assert (a + b)[0] == a[0];
      assert (a + b)[1..] == a[1..] + b;
      EvaluateAppend(a[1..], b, facts);
    } else {
      assert a + b == b;
    }
  }

  /** Rewriting the logical operators of the conditions changes nothing:
      the conditions are always joined by AND. */
  lemma {:induction false} LogicalOperatorIgnored(conds: seq<Condition>, ops: seq<string>,
                                                facts: Option<Store>)
    requires |ops| == |conds|
    ensures EvaluateConditions(
        seq(|conds|, i requires 0 <= i < |conds| => conds[i].(logicalOperator := ops[i])), facts)
      == EvaluateConditions(conds, facts)
  {
    var rewritten :=
        seq(|conds|, i requires 0 <= i < |conds| => conds[i].(logicalOperator := ops[i]));
    if |conds| > 0 {
      LogicalOperatorIgnored(conds[1..], ops[1..], facts);
      assert rewritten[1..] == seq(|conds[1..]|, i requires 0 <= i < |conds[1..]| =>
          conds[1..][i].(logicalOperator := ops[1..][i]));
      assert Outcome(rewritten[0], facts) == Outcome(conds[0], facts);
    }
  }

  /** With no mapper, any non-empty conjunction raises AttributeError. */
  lemma NoFactsRaises(conds: seq<Condition>)
    requires |conds| > 0
    ensures EvaluateConditions(conds, None) == Err(AttributeError)
  {
  }

  /** `current_speed <= speed_limit`: the target names a fact, so the two
      facts are compared by value. */
  lemma SpeedWithinLimit(store: Store, speed: int, limit: int)
    requires Get(store, "current_speed") == Some(Int(speed))
    requires Get(store, "speed_limit") == Some(Int(limit))
    ensures EvaluateCondition(Condition("current_speed", "<=", "speed_limit", "AND"), store)
      == Ok(speed <= limit)
  {
  }
}
