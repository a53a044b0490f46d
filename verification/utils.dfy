/** The standalone helpers of `utils.py`: `update_facts` on a plain dict,
    which behaves exactly as `FactsMapper.update_facts` on the mapper's
    dict, and `reformat_facts_to_prompt` over a mapper. */
module Utils {
  import opened Basics
  import opened Dict
  import opened PyValue
  import opened FactsMapper

  /** Applying the same oracle reply twice gives what applying it once gives. */
  lemma UpdateFactsIdempotent(d: Store, reply: Reply)
    requires Valid(d)
    ensures UpdateFacts(UpdateFacts(d, reply), reply) == UpdateFacts(d, reply)
  {
    if reply.Decoded? {
      var es := reply.facts;
      var d1 := Apply(d, es);
      var d2 := Apply(d1, es);
      assert forall k :: k in d2.vals <==> k in d1.vals;
      SameKeysPrefix(d1, d2);
      assert d2.vals == d1.vals;
    }
  }

  /** A valid dict whose keys extend another's, with the same key set, has
      the same key sequence. */
  lemma SameKeysPrefix(a: Store, b: Store)
    requires Valid(a) && Valid(b)
    requires a.keys <= b.keys
    requires forall k :: k in b.vals <==> k in a.vals
    ensures b.keys == a.keys
  {
    if |b.keys| > |a.keys| {
      FreshBeyondPrefix(a, b, |a.keys|);
      assert false;
    }
  }

  /** A name no applied entry mentions keeps its key and its value. */
  lemma UpdateKeepsUnmentioned(d: Store, es: seq<FactEntry>, k: string)
    requires Valid(d) && k in d.vals
    requires forall i :: 0 <= i < |es| && Accepted(es[i]) ==> es[i].name.value != k
    ensures k in UpdateFacts(d, Decoded(es)).vals
    ensures UpdateFacts(d, Decoded(es)).vals[k] == d.vals[k]
  {
  }

  /** A reply with one accepted entry is one assignment. */
  lemma UpdateOneEntry(d: Store, name: string, v: Value)
    requires Valid(d) && name != "" && v != Null
    ensures UpdateFacts(d, Decoded([FactEntry(Some(name), v)])) == Put(d, name, v)
  {
    var es := [FactEntry(Some(name), v)];
    assert es[..0] == [];
    assert Apply(d, es[..0]) == d;
    assert Accepted(es[0]);
  }

  /** An entry for a name outside the dict adds that name at the end. */
  lemma UpdateAddsUnknownName(d: Store, name: string, v: Value)
    requires Valid(d) && name !in d.vals && name != "" && v != Null
    ensures UpdateFacts(d, Decoded([FactEntry(Some(name), v)])).keys == d.keys + [name]
    ensures UpdateFacts(d, Decoded([FactEntry(Some(name), v)])).vals[name] == v
  {
    UpdateOneEntry(d, name, v);
  }

  /** The dict of the module's usage example. */
  function ExampleFacts(): (d: Store)
    ensures Valid(d)
  {
    var d := Put(Empty(), "gear", Str("drive"));
    var d := Put(d, "accelerator_pressed", Str("True"));
    var d := Put(d, "indicator_left_on", Str("True"));
    var d := Put(d, "clear_to_turn", Str("True"));
    var d := Put(d, "traffic_light", Str("red"));
    var d := Put(d, "other_vehicle_approaching", Str("True"));
    var d := Put(d, "pedestrian_crossing", Str("True"));
    var d := Put(d, "pedestrian_present", Str("True"));
    var d := Put(d, "current_speed", Str("40"));
    var d := Put(d, "speed_limit", Str("50"));
    Put(d, "engine_off", Str("True"))
  }

  /** The usage example: the reply `{"facts":[{"fact_name":"gear","value":"neutral"}]}`
      sets `gear` to `neutral` and changes nothing else. */
  lemma ExampleOnlyGearChanges()
    ensures UpdateFacts(ExampleFacts(), Decoded([FactEntry(Some("gear"), Str("neutral"))]))
      == Put(ExampleFacts(), "gear", Str("neutral"))
  {
    UpdateOneEntry(ExampleFacts(), "gear", Str("neutral"));
  }

  /** The current-facts text of `reformat_facts_to_prompt` has one line
      per stored fact, in store order: `key = value`, with `N/A` for None. */
  lemma PromptLines(m: Store, factsList: seq<string>, i: nat)
    requires Valid(m) && i < |m.keys|
    requires NoNewlines(FactSegments(m))
    ensures Unjoin(ReformatFactsToPrompt(m, factsList).1).Some?
    ensures var lines := Unjoin(ReformatFactsToPrompt(m, factsList).1).value;
      && |lines| == |m.keys|
      && (m.vals[m.keys[i]] == Null ==> lines[i] == m.keys[i] + " = " + "N/A")
      && (m.vals[m.keys[i]] != Null ==> lines[i] == m.keys[i] + " = " + Show(m.vals[m.keys[i]]))
  {
  }
}
