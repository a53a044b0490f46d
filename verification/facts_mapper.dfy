/** `FactsMapper`: the fact store of one car. It maps fact names to values
    in insertion order, starts from a fixed schema with defaults, takes
    database rows through `set_facts` (schema keys only, with the strings
    'true'/'false' turned into booleans) and oracle proposals through
    `update_facts` (any non-empty name, no schema check), and renders
    itself as prompt text. */
module FactsMapper {
  import opened Basics
  import opened Dict
  import opened PyValue

  type Store = Dict<string, Value>

  /** The schema of a fresh mapper, in declaration order. */
  const Schema: seq<string> :=
    ["car_id", "timestamp", "gear", "accelerator_pressed", "indicator_left_on",
     "indicator_right_on", "traffic_light", "intersection", "other_vehicle_approaching",
     "pedestrian_crossing", "pedestrian_present", "current_speed", "speed_limit",
     "merge_lane_clear", "engine_off"]

  /** A fresh mapper: the fifteen schema facts at their defaults. */
  function Fresh(): (s: Store)
    ensures Valid(s)
    ensures s.keys == Schema && |s.keys| == 15
    ensures forall k :: k in s.vals ==> s.vals[k] == Default(k)
  {
    SchemaDistinct();
    Dict(Schema, map k | k in Schema :: Default(k))
  }

  lemma SchemaDistinct()
    ensures forall i, j :: 0 <= i < j < |Schema| ==> Schema[i] != Schema[j]
  {
    forall i, j | 0 <= i < j < |Schema|
      ensures Schema[i] != Schema[j]
    {
      assert |Schema[i]| != |Schema[j]| || Schema[i][0] != Schema[j][0];
    }
  }

  /** The defaults by kind: the speed starts at zero, the one road-state
      flag that starts raised is `merge_lane_clear`, the other flags start
      lowered, and identifiers, gear, light and limit start unknown. */
  function Default(name: string): Value {
    if name == "current_speed" then Int(0)
    else if name == "merge_lane_clear" then Bool(true)
    else if name in {"car_id", "timestamp", "gear", "traffic_light", "speed_limit"} then Null
    else Bool(false)
  }

  /** The literal coercion of `set_facts`: the strings 'true' and 'false'
      become booleans, everything else is kept verbatim. */
  function Coerce(v: Value): (r: Value)
    ensures r != Str("true") && r != Str("false")
    ensures r != v ==> r.Bool? && v == Str(if r.b then "true" else "false")
  {
    if v == Str("true") then Bool(true)
    else if v == Str("false") then Bool(false)
    else v
  }

  /** `set_facts(query_result)`: every key of the query that the store
      already has gets the query's value, coerced; other query keys are
      ignored and the store's key sequence never changes. */
  function SetFacts(store: Store, query: Dict<string, Value>): (r: Store)
    requires Valid(store) && Valid(query)
    ensures Valid(r)
    ensures r.keys == store.keys
    ensures forall k :: k in r.vals ==>
      r.vals[k] == (if k in query.vals then Coerce(query.vals[k]) else store.vals[k])
  {
    SetKeys(store, query, query.keys)
  }

  function SetKeys(store: Store, query: Dict<string, Value>, ks: seq<string>): (r: Store)
    requires Valid(store)
    requires forall i :: 0 <= i < |ks| ==> ks[i] in query.vals
    ensures Valid(r)
    ensures r.keys == store.keys
    ensures forall k :: k in r.vals ==>
      r.vals[k] == (if k in ks then Coerce(query.vals[k]) else store.vals[k])
    decreases |ks|
  {
    if |ks| == 0 then store
    else
      var k := ks[0];
      var next := if k in store.vals then Put(store, k, Coerce(query.vals[k])) else store;
      var r := SetKeys(next, query, ks[1..]);
      assert forall j :: j in ks <==> j == k || j in ks[1..];
      r
  }

  /** One element of the oracle's `facts` list. A missing or null
      `fact_name` is None; a missing or null `value` is `Null`. */
  datatype FactEntry = FactEntry(name: Option<string>, value: Value)

  /** The oracle's chat response as `update_facts` sees it. */
  datatype Reply =
    | MissingContent               // no `message` or `content` key: KeyError
    | Undecodable                  // `content` is not JSON: JSONDecodeError
    | Decoded(facts: seq<FactEntry>)  // `content` decoded; a missing `facts` key is []

  /** An entry is applied when its name is truthy and its value is not None. */
  predicate Accepted(e: FactEntry) {
    e.name.Some? && e.name.value != "" && e.value != Null
  }

  /** Entry `i` is applied and names `k`. */
  predicate Names(es: seq<FactEntry>, i: int, k: string) {
    0 <= i < |es| && Accepted(es[i]) && es[i].name.value == k
  }

  /** The value of the last applied entry that names `k`, if any: later
      entries override earlier ones. */
  function LastAccepted(es: seq<FactEntry>, k: string): (r: Option<Value>)
    ensures r.Some? <==> exists i :: Names(es, i, k)
    ensures r.Some? ==>
      exists i :: Names(es, i, k) && r.value == es[i].value &&
          (forall j :: i < j < |es| ==> !Names(es, j, k))
    decreases |es|, 1
  {
    if |es| == 0 then None
    else
      var e := es[|es| - 1];
      if Accepted(e) && e.name.value == k then
        assert Names(es, |es| - 1, k);
        Some(e.value)
      else
        var r := LastAccepted(es[..|es| - 1], k);
        LastAcceptedFront(es, es[..|es| - 1], k);
        r
  }

  /** Without the last entry naming `k`, the search goes on in the front. */
  lemma LastAcceptedFront(es: seq<FactEntry>, front: seq<FactEntry>, k: string)
    requires |es| > 0 && front == es[..|es| - 1] && !Names(es, |es| - 1, k)
    ensures (exists i :: Names(front, i, k)) <==> exists i :: Names(es, i, k)
    ensures var r := LastAccepted(front, k);
      r.Some? ==>
        exists i :: Names(es, i, k) && r.value == es[i].value &&
            (forall j :: i < j < |es| ==> !Names(es, j, k))
    decreases |es|, 0
  {
    if i :| Names(front, i, k) {
      assert Names(es, i, k);
    }
    if i :| Names(es, i, k) {
      assert Names(front, i, k);
    }
    var r := LastAccepted(front, k);
    if r.Some? {
      var i :| Names(front, i, k) && r.value == front[i].value &&
        forall j :: i < j < |front| ==> !Names(front, j, k);
      assert Names(es, i, k) && r.value == es[i].value;
      forall j | i < j < |es|
        ensures !Names(es, j, k)
      {
        if j < |front| {
          assert !Names(front, j, k);
        }
      }
    }
  }

  /** Apply the entries in order: `facts[name] = value` for each accepted one. */
  function Apply(store: Store, es: seq<FactEntry>): (r: Store)
    requires Valid(store)
    ensures Valid(r)
    ensures store.keys <= r.keys
    ensures forall k :: k in r.vals <==> k in store.vals || LastAccepted(es, k).Some?
    ensures forall k :: k in r.vals ==>
      r.vals[k] == (if LastAccepted(es, k).Some? then LastAccepted(es, k).value else store.vals[k])
  {
    if |es| == 0 then store
    else
      var prev := Apply(store, es[..|es| - 1]);
      var e := es[|es| - 1];
      if Accepted(e) then Put(prev, e.name.value, e.value) else prev
  }

  /** `update_facts(data)`: a decoded reply overwrites or adds every named
      fact it carries; an undecodable one changes nothing. */
  function UpdateFacts(store: Store, reply: Reply): (r: Store)
    requires Valid(store)
    ensures Valid(r)
    ensures !reply.Decoded? ==> r == store
    ensures reply.Decoded? ==> r == Apply(store, reply.facts)
  {
    match reply
    case Decoded(es) => Apply(store, es)
    case _ => store
  }

  // --------------------------------------------------------- prompt text

  const Separator: string := "\n    "

  /** `"\n    ".join(parts)`. */
  function JoinLines(parts: seq<string>): string {
    if |parts| == 0 then ""
    else if |parts| == 1 then parts[0]
    else parts[0] + Separator + JoinLines(parts[1..])
  }

  /** `s.split("\n")`. */
  function Lines(s: string): (r: seq<string>)
    ensures |r| > 0
    decreases |s|
  {
    var i := IndexOf(s, '\n');
    if i == |s| then [s] else [s[..i]] + Lines(s[i + 1..])
  }

  /** A continuation line: it starts with the four-space indent. */
  predicate Indented(line: string) {
    |line| >= 4 && line[..4] == "    "
  }

  function Dedent(line: string): string {
    if Indented(line) then line[4..] else line
  }

  /** Recover the parts of a `JoinLines` text, or None when a line after
      the first lacks the indent, so the text is no such join. */
  function Unjoin(s: string): Option<seq<string>> {
    UnjoinLines(Lines(s))
  }

  /** The first line as is, the continuation lines without their indent. */
  function UnjoinLines(ls: seq<string>): Option<seq<string>>
    requires |ls| > 0
  {
    if forall i :: 0 < i < |ls| ==> Indented(ls[i]) then
      Some([ls[0]] + seq(|ls| - 1, i requires 0 <= i < |ls| - 1 => Dedent(ls[i + 1])))
    else None
  }

  predicate NoNewline(s: string) {
    forall i :: 0 <= i < |s| ==> s[i] != '\n'
  }

  predicate NoNewlines(parts: seq<string>) {
    forall i :: 0 <= i < |parts| ==> NoNewline(parts[i])
  }

  /** `key = value` with None shown as `N/A`. */
  function Segment(key: string, v: Value): string {
    key + " = " + (if v == Null then "N/A" else Show(v))
  }

  /** One segment per stored fact, in store order. */
  function FactSegments(store: Store): (r: seq<string>)
    requires Valid(store)
    ensures |r| == |store.keys|
    ensures forall i :: 0 <= i < |r| ==>
      r[i] == Segment(store.keys[i], store.vals[store.keys[i]])
  {
    var items := Items(store);
    seq(|items|, i requires 0 <= i < |items| => Segment(items[i].0, items[i].1))
  }

  /** `reformat_facts_to_prompt(facts_list)`: the permissible names and the
      current facts, each as indented lines that split back into their
      parts when no part holds a line break. */
  function ReformatFactsToPrompt(store: Store, factsList: seq<string>): (r: (string, string))
    requires Valid(store)
    ensures |factsList| > 0 && NoNewlines(factsList) ==> Unjoin(r.0) == Some(factsList)
    ensures |factsList| == 0 ==> r.0 == ""
    ensures |store.keys| > 0 && NoNewlines(FactSegments(store)) ==>
        Unjoin(r.1) == Some(FactSegments(store))
    ensures |store.keys| == 0 ==> r.1 == ""
  {
    JoinRoundTrip(factsList);
    JoinRoundTrip(FactSegments(store));
    (JoinLines(factsList), JoinLines(FactSegments(store)))
  }

  lemma JoinRoundTrip(parts: seq<string>)
    ensures |parts| > 0 && NoNewlines(parts) ==> Unjoin(JoinLines(parts)) == Some(parts)
  {
    if |parts| > 0 && NoNewlines(parts) {
      UnjoinJoin(parts);
    }
  }

  lemma LinesNoNewline(s: string)
    requires NoNewline(s)
    ensures Lines(s) == [s]
  {
  }

  /** A line without a break followed by a break starts a new line. */
  lemma LinesAfter(p: string, s: string)
    requires NoNewline(p)
    ensures Lines(p + "\n" + s) == [p] + Lines(s)
  {
    var t := p + "\n" + s;
    assert t[|p|] == '\n';
    assert forall i :: 0 <= i < |p| ==> t[i] == p[i];
    assert IndexOf(t, '\n') == |p|;
    assert t[..|p|] == p;
    assert t[|p| + 1..] == s;
  }

  /** The first break of `x + s` is that of `s`, when `x` has none. */
  lemma BreakAfterPrefix(x: string, s: string)
    requires NoNewline(x)
    ensures IndexOf(x + s, '\n') == |x| + IndexOf(s, '\n')
  {
    var t := x + s;
    assert forall j :: 0 <= j < |x| ==> t[j] == x[j];
    assert forall j :: 0 <= j < |s| ==> t[|x| + j] == s[j];
  }

  /** A text with a first break at `j` splits there. */
  lemma LinesBreak(t: string, j: nat)
    requires j == IndexOf(t, '\n') && j < |t|
    ensures Lines(t) == [t[..j]] + Lines(t[j + 1..])
  {
  }

  /** Text without a break prefixes the first line. */
  lemma LinesPrefix(x: string, s: string)
    requires NoNewline(x)
    ensures Lines(x + s) == [x + Lines(s)[0]] + Lines(s)[1..]
  {
    BreakAfterPrefix(x, s);
    if IndexOf(s, '\n') < |s| {
      LinesPrefixBreak(x, s, IndexOf(s, '\n'));
    } else {
      assert Lines(s) == [s];
      assert Lines(x + s) == [x + s];
    }
  }

  lemma LinesPrefixBreak(x: string, s: string, i: nat)
    requires i == IndexOf(s, '\n') < |s|
    requires IndexOf(x + s, '\n') == |x| + i
    ensures Lines(x + s) == [x + Lines(s)[0]] + Lines(s)[1..]
  {
    var t := x + s;
    var rest := Lines(s[i + 1..]);
    LinesBreak(t, |x| + i);
    LinesBreak(s, i);
    assert t[..|x| + i] == x + s[..i];
    assert t[|x| + i + 1..] == s[i + 1..];
  }

  /** Splitting a joined text gives the parts back. */
  lemma {:induction false} UnjoinJoin(parts: seq<string>)
    requires |parts| > 0 && NoNewlines(parts)
    ensures Unjoin(JoinLines(parts)) == Some(parts)
  {
    if |parts| == 1 {
      LinesNoNewline(parts[0]);
      UnjoinOne(parts[0]);
      assert JoinLines(parts) == parts[0] && parts == [parts[0]];
    } else {
      var rest := JoinLines(parts[1..]);
      assert NoNewline(parts[0]);
      assert JoinLines(parts) == parts[0] + "\n" + ("    " + rest);
      LinesAfter(parts[0], "    " + rest);
      LinesPrefix("    ", rest);
      var ls := Lines(rest);
      assert Lines(JoinLines(parts)) == [parts[0]] + (["    " + ls[0]] + ls[1..]);
      UnjoinJoin(parts[1..]);
      UnjoinIndented(parts[0], ls);
      assert parts == [parts[0]] + parts[1..];
    }
  }

  lemma UnjoinOne(x: string)
    ensures UnjoinLines([x]) == Some([x])
  {
    var ls := [x];
    assert forall i :: 0 < i < |ls| ==> Indented(ls[i]);
    assert UnjoinLines(ls).Some?;
    assert |UnjoinLines(ls).value| == 1;
    assert UnjoinLines(ls).value[0] == x;
    assert UnjoinLines(ls).value == [x];
  }

  lemma UnjoinIndented(first: string, ls: seq<string>)
    requires |ls| > 0 && UnjoinLines(ls).Some?
    ensures UnjoinLines([first] + (["    " + ls[0]] + ls[1..])) ==
        Some([first] + UnjoinLines(ls).value)
  {
    var whole := [first] + (["    " + ls[0]] + ls[1..]);
    assert whole[1] == "    " + ls[0];
    assert whole[1][..4] == "    ";
    assert Dedent(whole[1]) == ls[0];
    assert forall i :: 2 <= i < |whole| ==> whole[i] == ls[i - 1];
    assert forall i :: 0 < i < |ls| ==> Indented(ls[i]);
    assert forall i :: 0 < i < |whole| ==> Indented(whole[i]);
    var a := UnjoinLines(whole).value;
    var b := [first] + UnjoinLines(ls).value;
    assert |a| == |b|;
    forall i | 0 <= i < |a|
      ensures a[i] == b[i]
    {
      if i >= 2 {
        assert whole[i] == ls[i - 1];
      }
    }
    assert a == b;
  }
}
