/** Forward chaining over the rule catalog. One pass evaluates every rule
    in catalog order and records each rule whose conditions hold, once,
    with a suggestion naming it. When nothing at all has been inferred, the
    facts are copied into a fresh mapper, handed to the language-model
    oracle for more facts, and inference runs again on what it returns. */
module Inference {
  import opened Basics
  import opened Dict
  import opened Decimal
  import opened PyValue
  import opened FactsMapper
  import opened RuleCatalog
  import opened Conditions

  /** `inferred_facts` (rule id to True) and `suggestions`. */
  datatype Inferred = Inferred(facts: Dict<int, bool>, suggestions: seq<string>)

  function NoInferences(): (st: Inferred)
    ensures Valid(st.facts) && Aligned(st) && st.facts.keys == []
  {
    Inferred(Empty(), [])
  }

  /** One suggestion per inferred rule, in the same order. */
  predicate Aligned(st: Inferred) {
    |st.suggestions| == |st.facts.keys|
  }

  /** `b` is `a` with entries and suggestions appended, none changed. */
  ghost predicate Extends(a: Inferred, b: Inferred) {
    && a.facts.keys <= b.facts.keys
    && a.suggestions <= b.suggestions
    && (forall k :: k in a.facts.vals ==> k in b.facts.vals && b.facts.vals[k] == a.facts.vals[k])
  }

  /** The suggestion recorded when rule `name` fires. */
  function Suggestion(name: string): string {
    "The rule '" + name + "' is triggered."
  }

  /** `infer(rule_id, value, suggestion)`: the first inference about a rule
      is kept; later ones are ignored, suggestion included. */
  function Infer(st: Inferred, id: int, value: bool, suggestion: string): (r: Inferred)
    requires Valid(st.facts)
    ensures Valid(r.facts)
    ensures Extends(st, r)
    ensures Aligned(st) ==> Aligned(r)
    ensures id in r.facts.vals
    ensures forall k :: k in r.facts.vals <==> k in st.facts.vals || k == id
    ensures id in st.facts.vals ==> r == st
    ensures id !in st.facts.vals ==>
      r.facts.vals[id] == value && r.suggestions == st.suggestions + [suggestion]
  {
    if id in st.facts.vals then st
    else Inferred(Put(st.facts, id, value), st.suggestions + [suggestion])
  }

  /** Inferring about the same rule twice is inferring once. */
  lemma InferIdempotent(st: Inferred, id: int, v1: bool, s1: string, v2: bool, s2: string)
    requires Valid(st.facts)
    ensures Infer(Infer(st, id, v1, s1), id, v2, s2) == Infer(st, id, v1, s1)
  {
  }

  /** Whether rule `k` fires on `facts`, or the exception it raises. */
  function RuleResult(c: Catalog, k: int, facts: Option<Store>): Result<bool, Exception>
    requires k in c.vals
  {
    EvaluateConditions(c.vals[k].conditions, facts)
  }

  /** Rule `k` is among `ids` and its conditions hold. */
  ghost predicate Fires(c: Catalog, ids: seq<int>, facts: Option<Store>, k: int) {
    k in ids && k in c.vals && RuleResult(c, k, facts) == Ok(true)
  }

  /** Some rule among `ids` raises. */
  ghost predicate Raises(c: Catalog, ids: seq<int>, facts: Option<Store>) {
    exists k :: k in ids && k in c.vals && RuleResult(c, k, facts).Err?
  }

  /** Rule `ids[i]` raises `e`, and every rule before it in `ids` runs
      without raising. */
  predicate RaisesAt(c: Catalog, ids: seq<int>, facts: Option<Store>, i: int, e: Exception) {
    && 0 <= i < |ids| && ids[i] in c.vals && RuleResult(c, ids[i], facts) == Err(e)
    && forall j :: 0 <= j < i ==> ids[j] in c.vals && RuleResult(c, ids[j], facts).Ok?
  }

  /** `e` is the exception of the first rule in `ids` that raises. */
  ghost predicate FirstRaises(c: Catalog, ids: seq<int>, facts: Option<Store>, e: Exception) {
    exists i :: RaisesAt(c, ids, facts, i, e)
  }

  /** The first raising rule of a list's front is the list's. */
  lemma FirstRaisesFront(c: Catalog, ids: seq<int>, front: seq<int>, facts: Option<Store>,
                        e: Exception)
    requires |ids| > 0 && front == ids[..|ids| - 1]
    requires FirstRaises(c, front, facts, e)
    ensures FirstRaises(c, ids, facts, e)
  {
    var i :| RaisesAt(c, front, facts, i, e);
    assert forall j :: 0 <= j < |front| ==> front[j] == ids[j];
    assert RaisesAt(c, ids, facts, i, e);
  }

  /** When no rule of the front raises, the last rule is the first to. */
  lemma FirstRaisesLast(c: Catalog, ids: seq<int>, front: seq<int>, facts: Option<Store>,
                       e: Exception)
    requires |ids| > 0 && front == ids[..|ids| - 1]
    requires forall i :: 0 <= i < |ids| ==> ids[i] in c.vals
    requires !Raises(c, front, facts) && RuleResult(c, ids[|ids| - 1], facts) == Err(e)
    ensures FirstRaises(c, ids, facts, e)
  {
    forall j | 0 <= j < |ids| - 1
      ensures RuleResult(c, ids[j], facts).Ok?
    {
      assert ids[j] == front[j];
      assert front[j] in front;
    }
    assert RaisesAt(c, ids, facts, |ids| - 1, e);
  }

  /** A rule list is its front followed by its last rule. */
  lemma RaisesLast(c: Catalog, ids: seq<int>, facts: Option<Store>)
    requires |ids| > 0 && ids[|ids| - 1] in c.vals
    ensures forall k :: k in ids <==> k in ids[..|ids| - 1] || k == ids[|ids| - 1]
    ensures Raises(c, ids, facts) <==>
      Raises(c, ids[..|ids| - 1], facts) || RuleResult(c, ids[|ids| - 1], facts).Err?
  {
    assert ids == ids[..|ids| - 1] + [ids[|ids| - 1]];
    assert forall k :: k in ids <==> k in ids[..|ids| - 1] || k == ids[|ids| - 1];
  }

  /** The rule loop of `run_inference` over the rules `ids`. */
  function Pass(c: Catalog, ids: seq<int>, facts: Option<Store>, st: Inferred)
    : (r: Result<Inferred, Exception>)
    requires Valid(c) && Valid(st.facts)
    requires forall i :: 0 <= i < |ids| ==> ids[i] in c.vals
    ensures r.Err? <==> Raises(c, ids, facts)
    ensures r.Err? ==> FirstRaises(c, ids, facts, r.error)
    ensures r.Ok? ==> Valid(r.value.facts) && Extends(st, r.value)
    ensures r.Ok? && Aligned(st) ==> Aligned(r.value)
    ensures r.Ok? ==>
        forall k :: k in r.value.facts.vals <==> k in st.facts.vals || Fires(c, ids, facts, k)
    ensures r.Ok? ==>
        forall k :: k in r.value.facts.vals && k !in st.facts.vals ==> r.value.facts.vals[k]
    ensures r.Ok? && Aligned(st) ==>
      forall j :: |st.facts.keys| <= j < |r.value.facts.keys| ==>
        r.value.facts.keys[j] in c.vals &&
        r.value.suggestions[j] == Suggestion(c.vals[r.value.facts.keys[j]].name)
    decreases |ids|
  {
    if |ids| == 0 then Ok(st)
    else
      var front := ids[..|ids| - 1];
      var id := ids[|ids| - 1];
      RaisesLast(c, ids, facts);
      match Pass(c, front, facts, st)
      case Err(e) =>
        FirstRaisesFront(c, ids, front, facts, e);
        Err(e)
      case Ok(s) =>
        match RuleResult(c, id, facts)
        case Err(e) =>
          FirstRaisesLast(c, ids, front, facts, e);
          Err(e)
        case Ok(met) =>
          var r := if met then Infer(s, id, true, Suggestion(c.vals[id].name)) else s;
          PassStep(c, ids, facts, st, s, r);
          Ok(r)
  }

  /** The membership and suggestion facts survive one more rule. */
  lemma PassStep(c: Catalog, ids: seq<int>, facts: Option<Store>,
                st: Inferred, s: Inferred, r: Inferred)
    requires |ids| > 0
    requires Valid(c) && Valid(st.facts) && Valid(s.facts) && ids[|ids| - 1] in c.vals
    requires Extends(st, s)
    requires forall k ::
        k in s.facts.vals <==> k in st.facts.vals || Fires(c, ids[..|ids| - 1], facts, k)
    requires Aligned(st) ==> Aligned(s) && forall j :: |st.facts.keys| <= j < |s.facts.keys| ==>
      s.facts.keys[j] in c.vals && s.suggestions[j] == Suggestion(c.vals[s.facts.keys[j]].name)
    requires RuleResult(c, ids[|ids| - 1], facts).Ok?
    requires r == if RuleResult(c, ids[|ids| - 1], facts).value
      then Infer(s, ids[|ids| - 1], true, Suggestion(c.vals[ids[|ids| - 1]].name)) else s
    requires forall k :: k in s.facts.vals && k !in st.facts.vals ==> s.facts.vals[k]
    ensures Valid(r.facts) && Extends(st, r)
    ensures forall k :: k in r.facts.vals <==> k in st.facts.vals || Fires(c, ids, facts, k)
    ensures forall k :: k in r.facts.vals && k !in st.facts.vals ==> r.facts.vals[k]
    ensures Aligned(st) ==> Aligned(r) && forall j :: |st.facts.keys| <= j < |r.facts.keys| ==>
      r.facts.keys[j] in c.vals && r.suggestions[j] == Suggestion(c.vals[r.facts.keys[j]].name)
  {
    var id := ids[|ids| - 1];
    RaisesLast(c, ids, facts);
    forall k
      ensures Fires(c, ids, facts, k) <==>
        Fires(c, ids[..|ids| - 1], facts, k) || (k == id && RuleResult(c, id, facts) == Ok(true))
    {
    }
  }

  // ------------------------------------------------------------ the run

  /** What the language model answers: not JSON at all, or a chat reply. */
  datatype LlmResponse = NotJson | Json(reply: Reply)

  /** `call_llm(mapper)` once the model has answered `response`: the mapper
      updated from the reply, or None when the response is not JSON. */
  function CallLlm(response: LlmResponse, mapper: Store): (r: Option<Store>)
    requires Valid(mapper)
    ensures r.None? <==> response.NotJson?
    ensures r.Some? ==> Valid(r.value) && mapper.keys <= r.value.keys
    ensures r.Some? && response.reply.Decoded? ==> r.value == Apply(mapper, response.reply.facts)
    ensures r.Some? && !response.reply.Decoded? ==> r.value == mapper
  {
    match response
    case NotJson => None
    case Json(reply) => Some(UpdateFacts(mapper, reply))
  }

  /** The mapper handed to the oracle: a fresh mapper loaded from the
      current facts. Only the schema's names are copied, so facts added by
      an earlier reply under other names are dropped. */
  function Snapshot(f: Store): (m: Store)
    requires Valid(f)
    ensures Valid(m) && m.keys == Schema
    ensures forall k :: k in m.vals ==>
      m.vals[k] == (if k in f.vals then Coerce(f.vals[k]) else Default(k))
  {
    SetFacts(Fresh(), f)
  }

  /** How a run ends: with inferences, with an exception, or, in the model
      only, wanting an oracle answer beyond those given. */
  datatype End = Concluded(state: Inferred) | Crashed(error: Exception) | Exhausted

  datatype Run = Run(end: End, passes: nat, oracleCalls: nat)

  /** Where one pass leads: the end of the run, or a call of the oracle on
      `snapshot` with the (empty) inferences carried over. */
  datatype Turn = Ends(end: End) | Escalate(snapshot: Store, state: Inferred)

  /** The rule loop of one call of `run_inference`, over the catalog
      fetched from `rows`. */
  function CatalogPass(rows: seq<RuleRow>, facts: Option<Store>, st: Inferred)
    : Result<Inferred, Exception>
    requires Valid(st.facts)
  {
    var c := FetchRulesAndConditions(rows);
    KeysHaveEntries(c);
    Pass(c, c.keys, facts, st)
  }

  /** One call of `run_inference` up to the oracle: fetch the catalog, run
      every rule, stop when anything has been inferred, and otherwise copy
      the facts into a fresh mapper for the oracle. */
  function OnePass(rows: seq<RuleRow>, facts: Option<Store>, st: Inferred): (t: Turn)
    requires facts.Some? ==> Valid(facts.value)
    requires Valid(st.facts)
    ensures t.Ends? ==> !t.end.Exhausted?
    ensures var p := CatalogPass(rows, facts, st);
      && ((t.Ends? && t.end.Concluded?) <==> p.Ok? && |p.value.facts.keys| > 0)
      && (t.Ends? && t.end.Concluded? ==> p == Ok(t.end.state))
      && ((t.Ends? && t.end.Crashed?) <==>
              p.Err? || (p.Ok? && p.value.facts.keys == [] && facts.None?))
      && (t.Ends? && t.end.Crashed? ==> t.end.error == if p.Err? then p.error else AttributeError)
    ensures t.Ends? && t.end.Concluded? ==>
      |t.end.state.facts.keys| > 0 && Explains(rows, st, t.end.state)
    ensures t.Escalate? ==> facts.Some? && t.snapshot == Snapshot(facts.value)
    ensures t.Escalate? ==> st.facts.keys == [] && t.state.facts.keys == []
    ensures t.Escalate? ==>
        Valid(t.state.facts) && Extends(st, t.state) && (Aligned(st) ==> Aligned(t.state))
  {
    var c := FetchRulesAndConditions(rows);
    KeysHaveEntries(c);
    match Pass(c, c.keys, facts, st)
    case Err(e) => Ends(Crashed(e))
    case Ok(s) =>
      PassExplains(rows, c, facts, st, s);
      if |s.facts.keys| > 0 then Ends(Concluded(s))
      else
        match facts
        case None => Ends(Crashed(AttributeError))
        case Some(f) => Escalate(Snapshot(f), s)
  }

  /** `run_inference`, where the oracle's successive answers are
      `responses`; a run that would ask for more answers than that ends
      Exhausted. The catalog is fetched again on every pass; `rows` is what
      the rules query returns each time. */
  function RunInference(rows: seq<RuleRow>, facts: Option<Store>, st: Inferred,
                    responses: seq<LlmResponse>): (r: Run)
    requires facts.Some? ==> Valid(facts.value)
    requires Valid(st.facts)
    ensures r.passes == r.oracleCalls + 1
    ensures r.oracleCalls <= |responses|
    ensures r.end.Exhausted? ==> r.oracleCalls == |responses|
    ensures r.oracleCalls > 0 ==> st.facts.keys == []
    ensures r.end.Concluded? ==> |r.end.state.facts.keys| > 0 && Explains(rows, st, r.end.state)
    decreases |responses|
  {
    match OnePass(rows, facts, st)
    case Ends(e) => Run(e, 1, 0)
    case Escalate(m, s) =>
      if |responses| == 0 then Run(Exhausted, 1, 0)
      else
        var rest := RunInference(rows, CallLlm(responses[0], m), s, responses[1..]);
        if rest.end.Concluded? then
          ExplainsTrans(rows, st, s, rest.end.state);
          Run(rest.end, rest.passes + 1, rest.oracleCalls + 1)
        else
          Run(rest.end, rest.passes + 1, rest.oracleCalls + 1)
  }

  /** `state` is `st` plus inferences each of which names a rule of the
      catalog `rows`, with that rule's suggestion. */
  ghost predicate Explains(rows: seq<RuleRow>, st: Inferred, state: Inferred) {
    && Valid(state.facts)
    && Extends(st, state)
    && (Aligned(st) ==> Aligned(state))
    && (Aligned(st) ==>
          forall j :: |st.facts.keys| <= j < |state.facts.keys| ==>
            var k := state.facts.keys[j];
            Occurs(rows, k) && k in state.facts.vals && state.facts.vals[k] &&
            state.suggestions[j] == Suggestion(rows[FirstIndex(rows, k)].ruleName))
  }

  lemma PassExplains(rows: seq<RuleRow>, c: Catalog, facts: Option<Store>,
                    st: Inferred, s: Inferred)
    requires c == FetchRulesAndConditions(rows) && Valid(st.facts)
    requires forall i :: 0 <= i < |c.keys| ==> c.keys[i] in c.vals
    requires Pass(c, c.keys, facts, st) == Ok(s)
    ensures Explains(rows, st, s)
  {
    if Aligned(st) {
      forall j | |st.facts.keys| <= j < |s.facts.keys|
        ensures var k := s.facts.keys[j];
          Occurs(rows, k) && k in s.facts.vals && s.facts.vals[k] &&
          s.suggestions[j] == Suggestion(rows[FirstIndex(rows, k)].ruleName)
      {
        var k := s.facts.keys[j];
        assert k in c.vals;
        FreshBeyondPrefix(st.facts, s.facts, j);
        assert s.suggestions[j] == Suggestion(c.vals[k].name);
      }
    }
  }

  /** An empty pass followed by a run that explains its result explains
      the whole run. */
  lemma ExplainsTrans(rows: seq<RuleRow>, st: Inferred, s: Inferred, t: Inferred)
    requires Valid(st.facts) && Valid(s.facts)
    requires Extends(st, s) && (Aligned(st) ==> Aligned(s))
    requires s.facts.keys == []
    requires Explains(rows, s, t)
    ensures Explains(rows, st, t)
  {
  }

  // ------------------------------------------------------------ properties

  /** A pass over rules that are all already inferred, none raising,
      changes nothing. */
  lemma {:induction false} PassSaturated(c: Catalog, ids: seq<int>, facts: Option<Store>,
                                       st: Inferred)
    requires Valid(c) && Valid(st.facts)
    requires forall i :: 0 <= i < |ids| ==> ids[i] in c.vals
    requires !Raises(c, ids, facts)
    requires forall k :: Fires(c, ids, facts, k) ==> k in st.facts.vals
    ensures Pass(c, ids, facts, st) == Ok(st)
  {
    if |ids| > 0 {
      var front := ids[..|ids| - 1];
      var id := ids[|ids| - 1];
      RaisesLast(c, ids, facts);
      forall k | Fires(c, front, facts, k)
        ensures k in st.facts.vals
      {
        assert Fires(c, ids, facts, k);
      }
      PassSaturated(c, front, facts, st);
      PassSaturatedStep(c, ids, facts, st);
    }
  }

  lemma PassSaturatedStep(c: Catalog, ids: seq<int>, facts: Option<Store>, st: Inferred)
    requires Valid(c) && Valid(st.facts) && |ids| > 0
    requires forall i :: 0 <= i < |ids| ==> ids[i] in c.vals
    requires Pass(c, ids[..|ids| - 1], facts, st) == Ok(st)
    requires RuleResult(c, ids[|ids| - 1], facts).Ok?
    requires RuleResult(c, ids[|ids| - 1], facts) == Ok(true) ==> ids[|ids| - 1] in st.facts.vals
    ensures Pass(c, ids, facts, st) == Ok(st)
  {
  }

  /** Running the same pass a second time infers nothing new. */
  lemma PassTwice(c: Catalog, ids: seq<int>, facts: Option<Store>, st: Inferred)
    requires Valid(c) && Valid(st.facts)
    requires forall i :: 0 <= i < |ids| ==> ids[i] in c.vals
    requires Pass(c, ids, facts, st).Ok?
    ensures Pass(c, ids, facts, Pass(c, ids, facts, st).value) == Pass(c, ids, facts, st)
  {
    PassSaturated(c, ids, facts, Pass(c, ids, facts, st).value);
  }

  /** When some rule fires and none raises, the run concludes on its first
      pass and never calls the oracle. */
  lemma FiringRuleConcludes(rows: seq<RuleRow>, facts: Option<Store>, st: Inferred,
                            responses: seq<LlmResponse>, k: int)
    requires facts.Some? ==> Valid(facts.value)
    requires Valid(st.facts)
    requires k in FetchRulesAndConditions(rows).vals
    requires RuleResult(FetchRulesAndConditions(rows), k, facts) == Ok(true)
    requires !Raises(FetchRulesAndConditions(rows), FetchRulesAndConditions(rows).keys, facts)
    ensures var r := RunInference(rows, facts, st, responses);
      r.end.Concluded? && r.oracleCalls == 0 && k in r.end.state.facts.vals
  {
    var c := FetchRulesAndConditions(rows);
    KeysHaveEntries(c);
    assert Fires(c, c.keys, facts, k);
    var s := Pass(c, c.keys, facts, st).value;
    assert k in s.facts.vals;
    assert OnePass(rows, facts, st) == Ends(Concluded(s));
  }

  /** Once the mapper is None, the next pass raises AttributeError: every
      rule has a condition, and reading it fails; with no rules, copying
      the facts for the oracle fails instead. */
  lemma MapperNoneCrashes(rows: seq<RuleRow>, st: Inferred, responses: seq<LlmResponse>)
    requires Valid(st.facts) && st.facts.keys == []
    ensures RunInference(rows, None, st, responses) == Run(Crashed(AttributeError), 1, 0)
  {
    var c := FetchRulesAndConditions(rows);
    KeysHaveEntries(c);
    forall k | k in c.vals
      ensures RuleResult(c, k, None) == Err(AttributeError)
    {
      OccursHasConditions(rows, k);
      NoFactsRaises(c.vals[k].conditions);
    }
    if |c.keys| > 0 {
      assert RuleResult(c, c.keys[0], None).Err?;
      assert Raises(c, c.keys, None);
    }
    assert OnePass(rows, None, st) == Ends(Crashed(AttributeError));
  }

  /** When no rule fires or raises and the oracle's answer is not JSON,
      the mapper becomes None and the second pass raises AttributeError. */
  lemma OracleFailureCrashes(rows: seq<RuleRow>, f: Store, st: Inferred,
                           responses: seq<LlmResponse>)
    requires Valid(f) && Valid(st.facts) && st.facts.keys == []
    requires !Raises(FetchRulesAndConditions(rows), FetchRulesAndConditions(rows).keys, Some(f))
    requires forall k :: k in FetchRulesAndConditions(rows).vals ==>
      RuleResult(FetchRulesAndConditions(rows), k, Some(f)) != Ok(true)
    requires |responses| > 0 && responses[0] == NotJson
    ensures RunInference(rows, Some(f), st, responses) == Run(Crashed(AttributeError), 2, 1)
  {
    FruitlessPassEscalates(rows, f, st);
    MapperNoneCrashes(rows, OnePass(rows, Some(f), st).state, responses[1..]);
  }

  /** A pass in which no rule fires or raises hands the facts to the oracle. */
  lemma FruitlessPassEscalates(rows: seq<RuleRow>, f: Store, st: Inferred)
    requires Valid(f) && Valid(st.facts) && st.facts.keys == []
    requires !Raises(FetchRulesAndConditions(rows), FetchRulesAndConditions(rows).keys, Some(f))
    requires forall k :: k in FetchRulesAndConditions(rows).vals ==>
      RuleResult(FetchRulesAndConditions(rows), k, Some(f)) != Ok(true)
    ensures OnePass(rows, Some(f), st).Escalate?
  {
    var c := FetchRulesAndConditions(rows);
    KeysHaveEntries(c);
    var s := Pass(c, c.keys, Some(f), st).value;
    assert forall k :: !Fires(c, c.keys, Some(f), k);
    assert forall k :: k !in s.facts.vals;
    NoEntries(s.facts);
  }

  /** Answers beyond those a run consumed change nothing. */
  lemma {:induction false} MoreResponses(rows: seq<RuleRow>, facts: Option<Store>, st: Inferred,
                                         responses: seq<LlmResponse>, extra: seq<LlmResponse>)
    requires facts.Some? ==> Valid(facts.value)
    requires Valid(st.facts)
    requires !RunInference(rows, facts, st, responses).end.Exhausted?
    ensures RunInference(rows, facts, st, responses + extra) ==
        RunInference(rows, facts, st, responses)
    decreases |responses|
  {
    var t := OnePass(rows, facts, st);
    if t.Ends? {
      RunEnds(rows, facts, st, responses);
      RunEnds(rows, facts, st, responses + extra);
    } else {
      EscalateNeedsAnswer(rows, facts, st, responses);
      var longer := responses + extra;
      AppendTail(responses, extra);
      RunEscalates(rows, facts, st, responses);
      RunEscalates(rows, facts, st, longer);
      MoreResponses(rows, CallLlm(responses[0], t.snapshot), t.state, responses[1..], extra);
    }
  }

  /** A pass that ends the run ends it after one pass and no oracle call. */
  lemma RunEnds(rows: seq<RuleRow>, facts: Option<Store>, st: Inferred, responses: seq<LlmResponse>)
    requires facts.Some? ==> Valid(facts.value)
    requires Valid(st.facts)
    requires OnePass(rows, facts, st).Ends?
    ensures RunInference(rows, facts, st, responses) == Run(OnePass(rows, facts, st).end, 1, 0)
  {
  }

  /** A run that escalates and is not exhausted had an answer to use. */
  lemma EscalateNeedsAnswer(rows: seq<RuleRow>, facts: Option<Store>, st: Inferred,
                          responses: seq<LlmResponse>)
    requires facts.Some? ==> Valid(facts.value)
    requires Valid(st.facts)
    requires OnePass(rows, facts, st).Escalate?
    requires !RunInference(rows, facts, st, responses).end.Exhausted?
    ensures |responses| > 0
  {
  }

  lemma AppendTail<T>(a: seq<T>, b: seq<T>)
    requires |a| > 0
    ensures (a + b)[0] == a[0] && (a + b)[1..] == a[1..] + b
  {
  }

  /** After a pass that escalates, the run is one more pass and one more
      oracle call than the run on the oracle's first answer. */
  lemma RunEscalates(rows: seq<RuleRow>, facts: Option<Store>, st: Inferred,
                   responses: seq<LlmResponse>)
    requires facts.Some? ==> Valid(facts.value)
    requires Valid(st.facts)
    requires OnePass(rows, facts, st).Escalate? && |responses| > 0
    ensures var t := OnePass(rows, facts, st);
      var rest := RunInference(rows, CallLlm(responses[0], t.snapshot), t.state, responses[1..]);
      RunInference(rows, facts, st, responses) ==
          Run(rest.end, rest.passes + 1, rest.oracleCalls + 1)
  {
  }

  /** A car in drive with the accelerator pressed, and one rule "Drive
      Forward" on exactly those two facts: the rule fires on the first pass
      and the oracle is never consulted. */
  lemma DriveForwardScenario(responses: seq<LlmResponse>)
    ensures var r :=
          RunInference(DriveForwardRows(), Some(DriveForwardFacts()), NoInferences(), responses);
      r.end.Concluded? && r.oracleCalls == 0 &&
      r.end.state.facts.keys == [1] && r.end.state.suggestions == [Suggestion("Drive Forward")]
  {
    var rows := DriveForwardRows();
    DriveForwardCatalog();
    DriveForwardMet();
    SingleRuleConcludes(rows, Some(DriveForwardFacts()), 1, "Drive Forward",
      [ConditionOf(rows[0]), ConditionOf(rows[1])], responses);
  }

  /** A catalog of one rule whose conditions all hold concludes on the
      first pass with that rule alone inferred. */
  lemma SingleRuleConcludes(rows: seq<RuleRow>, facts: Option<Store>, id: int, name: string,
                            cs: seq<Condition>, responses: seq<LlmResponse>)
    requires facts.Some? ==> Valid(facts.value)
    requires FetchRulesAndConditions(rows) == Dict([id], map[id := Rule(name, cs)])
    requires AllMet(cs, facts)
    ensures RunInference(rows, facts, NoInferences(), responses) ==
      Run(Concluded(Inferred(Dict([id], map[id := true]), [Suggestion(name)])), 1, 0)
  {
    var c := FetchRulesAndConditions(rows);
    assert RuleResult(c, id, facts) == Ok(true);
    PassOne(c, id, facts, NoInferences());
    FirstInference(id, Suggestion(name));
    var s := Inferred(Dict([id], map[id := true]), [Suggestion(name)]);
    assert OnePass(rows, facts, NoInferences()) == Ends(Concluded(s));
  }

  /** A pass over one firing rule infers it. */
  lemma PassOne(c: Catalog, id: int, facts: Option<Store>, st: Inferred)
    requires Valid(c) && Valid(st.facts) && id in c.vals
    requires RuleResult(c, id, facts) == Ok(true)
    ensures Pass(c, [id], facts, st) == Ok(Infer(st, id, true, Suggestion(c.vals[id].name)))
  {
    assert [id][..0] == [];
  }

  /** The first inference of a run is the only entry. */
  lemma FirstInference(id: int, suggestion: string)
    ensures Infer(NoInferences(), id, true, suggestion) ==
        Inferred(Dict([id], map[id := true]), [suggestion])
  {
    assert [] + [id] == [id];
  }

  /** Both conditions of "Drive Forward" hold on the car. */
  lemma DriveForwardMet()
    ensures var rows := DriveForwardRows();
      AllMet([ConditionOf(rows[0]), ConditionOf(rows[1])], Some(DriveForwardFacts()))
  {
    DriveForwardGear();
    DriveForwardPedal();
  }

  /** `gear = drive` holds: `drive` is neither a number nor a fact name,
      so the fact is compared with it as text. */
  lemma DriveForwardGear()
    ensures Outcome(ConditionOf(DriveForwardRows()[0]), Some(DriveForwardFacts())) == Ok(true)
  {
    var store := DriveForwardFacts();
    var gear := ConditionOf(DriveForwardRows()[0]);
    assert gear == Condition("gear", "=", "drive", "AND");
    assert FactValue(store, "gear") == Str("drive");
    ParseRejectsWord("drive");
    assert ToFloat(Str("drive")) == NotNumeric;
    assert Target("drive", store) == Str("drive");
    EqualsIsTextual(gear, store);
  }

  /** `accelerator_pressed = true` holds on the pressed pedal. */
  lemma DriveForwardPedal()
    ensures Outcome(ConditionOf(DriveForwardRows()[1]), Some(DriveForwardFacts())) == Ok(true)
  {
    var store := DriveForwardFacts();
    var pedal := ConditionOf(DriveForwardRows()[1]);
    assert pedal == Condition("accelerator_pressed", "=", "true", "AND");
    assert FactValue(store, "accelerator_pressed") == Bool(true);
    BooleanLiterals(pedal, store);
  }

  function DriveForwardFacts(): (store: Store)
    ensures Valid(store)
    ensures store.keys == ["gear", "accelerator_pressed"]
    ensures store.vals == map["gear" := Str("drive"), "accelerator_pressed" := Bool(true)]
  {
    Put(Put(Empty(), "gear", Str("drive")), "accelerator_pressed", Bool(true))
  }

  function DriveForwardRows(): seq<RuleRow> {
    [RuleRow(1, "Drive Forward", "drive", "", "gear", "=", "drive", "AND"),
     RuleRow(1, "Drive Forward", "drive", "", "accelerator_pressed", "=", "true", "AND")]
  }

  /** The two rows group into one rule with both conditions. */
  lemma DriveForwardCatalog()
    ensures var rows := DriveForwardRows();
      FetchRulesAndConditions(rows) ==
        Dict([1], map[1 := Rule("Drive Forward", [ConditionOf(rows[0]), ConditionOf(rows[1])])])
  {
    var rows := DriveForwardRows();
    assert rows[..1] == [rows[0]];
    FirstRowCatalog(rows[0]);
    SecondRowCatalog(rows[0], rows[1]);
  }

  lemma FirstRowCatalog(row: RuleRow)
    ensures FetchRulesAndConditions([row]) ==
        Dict([row.ruleId], map[row.ruleId := Rule(row.ruleName, [ConditionOf(row)])])
  {
    assert [row][..0] == [];
  }

  lemma SecondRowCatalog(a: RuleRow, b: RuleRow)
    requires a.ruleId == b.ruleId
    ensures AddRow(Dict([a.ruleId], map[a.ruleId := Rule(a.ruleName, [ConditionOf(a)])]), b) ==
      Dict([a.ruleId], map[a.ruleId := Rule(a.ruleName, [ConditionOf(a), ConditionOf(b)])])
  {
    var c := Dict([a.ruleId], map[a.ruleId := Rule(a.ruleName, [ConditionOf(a)])]);
    assert Valid(c);
    assert [ConditionOf(a)] + [ConditionOf(b)] == [ConditionOf(a), ConditionOf(b)];
  }
}
