# Car-state expert system: a Dafny model

The system is a forward-chaining expert system for cars. A car's state is
loaded into a fact store, the `FactsMapper`. That store is a Python dict
from fact names to values. It starts from a fixed schema of fifteen facts
with defaults, and database rows overwrite the schema facts. Rules are
read from a joined rules/conditions query and grouped by rule id. Each
rule is a conjunction of conditions of the form `fact operator target`.

One inference pass evaluates every rule in catalog order. It records each
rule that fires once, with the suggestion "The rule '<name>' is
triggered.". When a pass infers nothing, the facts are copied into a fresh
mapper and handed to a language-model oracle. The oracle answers with JSON
proposing new fact values, and inference runs again on the updated mapper.

The model has these modules:

- `Basics`: `Option` and `Result`.
- `Dict`: an insertion-ordered dict.
- `Decimal`: exact decimal numbers standing in for Python floats, with
  their `str` text and `float()` parsing.
- `PyValue`: Python values, including the `datetime` of the `timestamp`
  column, with `str`, `float()` and the ordering operators and their
  exceptions.
- `FactsMapper`: the mapper, covering `__init__`, `set_facts`,
  `update_facts` and `reformat_facts_to_prompt`.
- `Utils`: the standalone `update_facts` and `reformat_facts_to_prompt`
  of `utils.py`, and its usage example.
- `RuleCatalog`: `fetch_rules_and_conditions`.
- `CarFacts`: the row loop of `get_facts`.
- `Conditions`: `evaluate_conditions`.
- `Inference`: `infer` and `run_inference`, with the oracle's `call_llm`.

Exceptions that escape the source's code are `Err` results. Three kinds
are modelled:

- `TypeError`: `float(None)` or `float()` of a datetime, or ordering
  values of different kinds, such as a string against a number.
- `UnsupportedOperator`: the `ValueError` raised for an unknown operator.
- `AttributeError`: reading facts from a mapper that `call_llm` set to None.

Database results are parameters: the rule rows and the car's rows. The
oracle's successive answers are a parameter sequence `responses`, one
answer used per call. A run that would need more answers than given ends
`Exhausted`, and `Inference.MoreResponses` shows that extra answers never
change a run that did not exhaust them.

Behaviours of the code worth knowing:

- The mapper's defaults are None, False, True and 0, as written in
  `facts_mapper.py`.
- `update_facts` stores any non-empty fact name, schema or not.
- An exception in any condition aborts the whole run.
- The suggestion text uses the rule's name.
- A pass stops the run when anything at all has been inferred, counting
  earlier inferences too.

## Model

| member | source | states |
|---|---|---|
| `Dict.Put` | facts_mapper.py:56 | assigning a key keeps the dict well formed; an existing key keeps its position, a new key is appended at the end |
| `Dict.Items` | facts_mapper.py:74 | the items are the entries in insertion order, one per key |
| `FactsMapper.Fresh` | facts_mapper.py:4-21 | a new mapper holds exactly the fifteen schema names, in declaration order, each at its default |
| `FactsMapper.SchemaDistinct` | facts_mapper.py:5-21 | the fifteen schema names are pairwise distinct, so the literal dict loses none of them |
| `FactsMapper.Coerce` | facts_mapper.py:32-37 | the strings 'true' and 'false' become booleans and no other value changes |
| `FactsMapper.SetFacts` | facts_mapper.py:23-37 | keys already in the store take the query's coerced value, all other store values are kept, query keys outside the store are ignored, and the key order never changes |
| `FactsMapper.LastAccepted` | facts_mapper.py:52-56 | a value is found for a name exactly when some applied entry (truthy name, non-None value) carries that name, and it is the value of the last such entry: later entries override earlier ones |
| `FactsMapper.Apply` | facts_mapper.py:52-56 | after the entries, a name is present exactly when it was before or some applied entry names it, and its value is that of the last such entry, else the old value; old keys keep their order |
| `FactsMapper.UpdateFacts` | facts_mapper.py:39-60 | a decoded reply applies its entries in order; a missing `message`/`content` key or undecodable content leaves the store unchanged |
| `FactsMapper.FactSegments` | facts_mapper.py:73-75 | one `key = value` segment per stored fact in store order, with None shown as `N/A` |
| `FactsMapper.ReformatFactsToPrompt` | facts_mapper.py:62-77 | when no part has a line break, each returned text is its parts joined by a newline and a four-space indent: it splits back into exactly the given names, and the fact segments, with every continuation line indented; an empty list gives the empty text |
| `FactsMapper.UnjoinJoin` | facts_mapper.py:72-75 | joining with a newline and four spaces, then splitting, checking that every continuation line carries the indent and removing it, returns the parts |
| `Utils.UpdateFactsIdempotent` | utils.py:3-16 | applying the same reply twice gives the same dict as applying it once |
| `Utils.UpdateKeepsUnmentioned` | utils.py:7-11 | a fact that no applied entry names keeps its value |
| `Utils.UpdateAddsUnknownName` | utils.py:10-11 | an entry for a name the dict lacks appends that name with its value |
| `Utils.UpdateOneEntry` | utils.py:7-11 | a reply with a single accepted entry is exactly one dict assignment |
| `Utils.ExampleOnlyGearChanges` | utils.py:27-49 | in the usage example the reply sets `gear` to `neutral` and changes nothing else |
| `Utils.PromptLines` | utils.py:18-24 | line i of the current-facts text is `key = value` for the i-th fact, with `N/A` for None, and there is one line per fact |
| `RuleCatalog.FirstIndex` | main.py:49-53 | the position of the row that creates a rule entry: a row of that rule with no earlier row of it |
| `RuleCatalog.FetchRulesAndConditions` | main.py:31-62 | the catalog has one entry per distinct rule id, ordered by first appearance and named after the rule's first row; each entry holds exactly that rule's conditions in row order |
| `RuleCatalog.AddRowStep` | main.py:41-60 | one more row keeps the grouping invariant of the loop |
| `RuleCatalog.OccursHasConditions` | main.py:49-60 | every rule in the catalog has at least one condition |
| `CarFacts.ColumnsAreSchema` | main.py:88-104 | the selected columns are exactly the mapper's schema, pairwise distinct |
| `CarFacts.RowDict` | main.py:107 | the row dict maps each selected column to the row's value at the same position, in column order |
| `CarFacts.GetFacts` | main.py:106-108 | loading rows keeps the store's keys; with rows, every column present takes the last row's coerced value; facts outside the columns are untouched |
| `CarFacts.GetFactsLastRow` | main.py:106-108 | on a schema-only mapper, the loaded facts are exactly the last row's values with 'true'/'false' read as booleans |
| `Decimal.ParseText` | main.py:127-133 | converting the text of a float back with `float()` gives the same float |
| `Decimal.TextInjective` | main.py:133 | two floats have the same text exactly when they are the same float |
| `Decimal.TextEqIffSameValue` | main.py:132-133 | two floats have the same text exactly when they denote the same number |
| `Decimal.ParseRejectsWord` | main.py:127-130 | text starting with anything but an ASCII digit, sign or point, such as a word, is not a float literal, so `float()` raises `ValueError` |
| `PyValue.ToFloat` | main.py:127-128 | `float()` of None or a datetime is a TypeError; a bool is 1 or 0, an int its own value, a float itself; a string converts exactly when it is a number literal, to the number it spells, and otherwise is the only non-numeric case |
| `PyValue.ToFloatShow` | main.py:127-133 | `float(str(x))` is `x` for every float `x` |
| `PyValue.Compare` | main.py:134-141 | an ordering raises TypeError exactly when the two sides are not both numbers, both strings or both datetimes; numbers are ordered by value, strings by code points, datetimes by their fixed-width text |
| `PyValue.LexTrichotomy` | main.py:134-141 | string order is strict and total: exactly one of less, equal or greater holds |
| `PyValue.CompareConsistent` | main.py:134-141 | on every accepted pair, `>` is `<` flipped, `>=` is `<=` flipped, and `<=` is the negation of `>` |
| `Conditions.FactValue` | main.py:121 | a missing fact reads as None, and a present one reads as its value |
| `Conditions.Target` | main.py:116-124 | the literal 'true' is 1 and 'false' is 0; a target naming a fact is that fact's value; any other target stays text |
| `Conditions.Convert` | main.py:126-130 | conversion raises TypeError exactly when the fact is None or a datetime, or when the fact converts and the target is None or a datetime; a non-numeric fact leaves both sides as they were |
| `Conditions.EvaluateCondition` | main.py:113-143 | a missing or None fact raises TypeError; a failed conversion of either side raises TypeError whatever the operator; once both sides convert, an unknown operator raises UnsupportedOperator naming it; the only exceptions are TypeError and UnsupportedOperator for this condition's operator |
| `Conditions.EqualsIsNumeric` | main.py:126-133 | when both sides convert, `=` holds exactly when they denote the same number |
| `Conditions.OrderingIsNumeric` | main.py:126-141 | when both sides convert, the orderings compare their numeric values |
| `Conditions.EqualsIsTextual` | main.py:132-133 | a non-numeric string fact is `=` to the target exactly when it equals the target's text |
| `Conditions.OrderingMixedRaises` | main.py:134-141 | ordering a number against a non-numeric string raises TypeError, in either direction |
| `Conditions.OrderingIsTextual` | main.py:134-141 | a non-numeric string fact is ordered against a string target by code points |
| `Conditions.DatetimeRaises` | main.py:126-141 | a condition on a datetime fact raises TypeError under every operator, and so does a datetime target next to a numeric fact |
| `Conditions.BooleanLiterals` | main.py:116-133 | `x = true` holds exactly when the boolean fact is True, and `x = false` exactly when it is False |
| `Conditions.Outcome` | main.py:121 | with no mapper, reading a fact raises AttributeError |
| `Conditions.EvaluateConditions` | main.py:110-149 | the result is True exactly when every condition is met; otherwise it is the outcome of some condition after an all-met prefix, either False or that condition's exception |
| `Conditions.EvaluateAppend` | main.py:145-147 | conditions after the first unmet one are never evaluated |
| `Conditions.LogicalOperatorIgnored` | main.py:110-149 | rewriting the logical-operator column changes no result, since conditions are always joined by AND |
| `Conditions.NoFactsRaises` | main.py:121 | with no mapper, any non-empty condition list raises AttributeError |
| `Conditions.SpeedWithinLimit` | main.py:121-135 | `current_speed <= speed_limit` compares the two facts' values |
| `Inference.Infer` | main.py:174-177 | the first inference about a rule is kept with its suggestion appended; a later one for the same rule returns the state unchanged; earlier entries are never altered |
| `Inference.InferIdempotent` | main.py:174-177 | inferring about the same rule twice is the same as inferring once |
| `Inference.Pass` | main.py:154-158 | a pass raises exactly when some rule raises, with the exception of the first raising rule in catalog order; otherwise the inferred rules are the earlier ones plus exactly the rules whose conditions hold, each new one True with its own rule's suggestion |
| `Inference.PassSaturated` | main.py:154-158 | a pass over rules that are already inferred, none raising, changes nothing |
| `Inference.PassTwice` | main.py:154-158 | repeating a successful pass infers nothing new |
| `Inference.CallLlm` | llm.py:128-134 | a non-JSON response gives None; otherwise the mapper updated from the reply, keeping its keys |
| `Inference.Snapshot` | main.py:167-168 | the mapper for the oracle has exactly the schema keys, the current facts coerced where present, and defaults elsewhere |
| `Inference.OnePass` | main.py:151-170 | a call concludes exactly when the rule loop succeeds with something inferred, and then with the loop's inferences; it crashes exactly when the loop raises, with that exception, or when nothing was inferred and the mapper is None, with AttributeError; otherwise it escalates to the oracle with a fresh copy of the facts |
| `Inference.RunInference` | main.py:151-170 | each oracle call is followed by one more pass; the oracle is called only while nothing has been inferred; a concluded run holds at least one inference, each naming a rule of the catalog with that rule's suggestion |
| `Inference.FiringRuleConcludes` | main.py:154-161 | when some rule fires and none raises, the run concludes on the first pass without calling the oracle |
| `Inference.FruitlessPassEscalates` | main.py:154-169 | a pass in which no rule fires or raises hands the facts to the oracle |
| `Inference.RunEscalates` | main.py:165-170 | after a pass that escalates, the run is one more pass and one more oracle call than the run on the oracle's answer |
| `Inference.MapperNoneCrashes` | main.py:157-168 | with the mapper None, the next pass raises AttributeError |
| `Inference.OracleFailureCrashes` | main.py:166-170 | a non-JSON oracle answer after a fruitless pass makes the second pass raise AttributeError |
| `Inference.MoreResponses` | main.py:170 | answers beyond those a run used change nothing |
| `Inference.SingleRuleConcludes` | main.py:151-161 | a catalog of one rule whose conditions all hold concludes on the first pass with exactly that rule inferred and its suggestion |
| `Inference.DriveForwardScenario` | main.py:151-177 | a car in drive with the accelerator pressed fires the single rule "Drive Forward" on the first pass and infers only that rule |

## Left out

- Database access (the ClickHouse client and the SQL text) is not modelled. The query results are parameters: the rule rows in `ORDER BY rule_id, condition_id` order and the car's rows.
- The HTTP request of `call_llm` and the prose of `format_prompt` are not modelled. The oracle's answer is an input, either not JSON or a chat reply.
- JSON shapes other than those `Reply` and `FactEntry` describe are not modelled. Content that is not an object, a `facts` member that is not a list, and entries that are not objects make `update_facts` raise an error it does not catch. The exception is a `facts` member that is an empty string or an empty object: it iterates nothing, so the facts are unchanged.
- FactsMapper.Accepted: only string fact names are modelled. The source also stores any truthy hashable name, such as `5`, and raises only for an unhashable one.
- PyValue.Value: list and dict values are not modelled. `update_facts` stores them like any other non-None value, and they fail later: `float()` of a list raises TypeError in `evaluate_conditions`.
- Decimal.Parse: Python's negative zero is not modelled. The model has a single zero, so `"-0"` parses to 0 and shows as `0.0`, while Python's `-0.0` shows as `-0.0`. A condition `current_speed = 0` on the fact `"-0"` therefore holds in the model but is False in Python.
- Conditions.EqualsIsNumeric: on Python floats it fails for a zero against a negative zero, which are equal in value but differ in text. It holds in the model, which has no negative zero.
- Decimal.TextEqIffSameValue: holds for the model's decimals. On Python floats, `0.0` and `-0.0` have the same value but different texts.
- Binary floating point is replaced by exact decimals. Rounding, exponent notation, `float()` whitespace and underscores, non-ASCII decimal digits, `inf`/`nan` and overflow are not modelled; text in those forms counts as non-numeric.
- Decimal.ParseRejectsWord: holds for the model's ASCII number literals only. Python's `float()` also accepts other Unicode decimal digits, so `float("٤٠")` is `40.0`, and a condition `current_speed = 40` on the fact `"٤٠"` holds in Python but not in the model.
- FactsMapper.ReformatFactsToPrompt: its texts are described only when no name and no fact text contains a line break. A name or value with a line break, which an oracle reply or a database row can carry, is still joined by the source, but the texts then do not split back into the parts, and the contract says nothing about them.
- The `print` output of `run_inference`, `update_facts` and `call_llm` is not modelled.
- Python's recursion limit on `run_inference` is not modelled. The number of oracle answers bounds a run instead, and `Exhausted` marks a run that would need more.
- The rules table is assumed unchanged between passes: every pass is given the same rule rows.
- `etl.py`, the module-level agent and URL, the `action` and `description` columns (carried but unused), and the `__main__` blocks are not part of this model.
- Inference.Pass: does not state that the new rule ids are appended in catalog order, only which ids are added and their values and suggestions.
- Inference.RunInference: does not state the final facts of a run that consulted the oracle; `Inference.OracleFailureCrashes` and `Inference.MoreResponses` cover the oracle path separately.
