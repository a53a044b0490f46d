/** The Python values the expert system stores and compares: `None`, `bool`,
    `int`, `float`, `str` and the `datetime` of the `timestamp` column, with
    the built-ins the evaluator relies on — `str(v)`, `float(v)` and the
    ordering operators. */
module PyValue {
  import opened Basics
  import opened Decimal

  /** A float in normal form, so that equal floats are equal values. */
  type Num = d: Dec | Normal(d) witness Dec(0, 0)

  /** A `datetime` is held as its `str` text, `YYYY-MM-DD HH:MM:SS`; the
      text has fixed width, so its order is the order of the instants. */
  datatype Value =
    | Null | Bool(b: bool) | Int(i: int) | Float(x: Num) | Str(s: string) | Time(text: string)

  /** The exceptions that escape the rule evaluator. */
  datatype Exception =
    | TypeError                          // float(None), float(datetime); ordering mixed kinds
    | UnsupportedOperator(op: string)    // the ValueError raised for an unknown operator
    | AttributeError                     // reading facts from a mapper that is None

  /** Python's `str(v)`. */
  function Show(v: Value): string {
    match v
    case Null => "None"
    case Bool(b) => if b then "True" else "False"
    case Int(i) => IntText(i)
    case Float(x) => Text(x)
    case Str(s) => s
    case Time(t) => t
  }

  /** The outcome of Python's `float(v)`. */
  datatype Conversion =
    | Converted(x: Num)
    | NotNumeric      // ValueError: a string that is not a number literal
    | NotConvertible  // TypeError: `float(None)` or `float(datetime)`

  function ToFloat(v: Value): (r: Conversion)
    ensures r.NotConvertible? <==> v.Null? || v.Time?
    ensures r.NotNumeric? ==> v.Str?
    ensures v.Bool? ==> r == Converted(Dec(if v.b then 1 else 0, 0))
    ensures v.Int? ==> r == Converted(Dec(v.i, 0))
    ensures v.Float? ==> r == Converted(v.x)
    ensures v.Str? ==> (r.Converted? <==> Parse(v.s).Some?)
    ensures v.Str? && r.Converted? ==> Parse(v.s) == Some(r.x)
  {
    match v
    case Null => NotConvertible
    case Time(_) => NotConvertible
    case Bool(b) => Converted(Dec(if b then 1 else 0, 0))
    case Int(i) => Converted(Dec(i, 0))
    case Float(x) => Converted(x)
    case Str(s) =>
      match Parse(s)
      case Some(x) => Converted(x)
      case None => NotNumeric
  }

  /** Converting the text of a float gives that float back. */
  lemma ToFloatShow(x: Num)
    ensures ToFloat(Str(Show(Float(x)))) == Converted(x)
  {
    var s := Show(Float(x));
    assert s == Text(x);
    ParseText(x);
    FloatOfParsed(s, x);
  }

  lemma FloatOfParsed(s: string, x: Num)
    requires Parse(s) == Some(x)
    ensures ToFloat(Str(s)) == Converted(x)
  {
  }

  /** `bool`, `int` and `float` are mutually ordered in Python. */
  predicate IsNumber(v: Value) {
    v.Bool? || v.Int? || v.Float?
  }

  function NumberOf(v: Value): Num
    requires IsNumber(v)
  {
    match v
    case Bool(b) => Dec(if b then 1 else 0, 0)
    case Int(i) => Dec(i, 0)
    case Float(x) => x
  }

  /** Python's `a < b` on strings: code-point lexicographic order. */
  predicate LexLess(a: string, b: string) {
    if |a| == 0 then |b| > 0
    else if |b| == 0 then false
    else if a[0] != b[0] then a[0] < b[0]
    else LexLess(a[1..], b[1..])
  }

  datatype Ordering = Lt | Le | Ge | Gt

  /** The orderings of a total order given by its strict part `lt` and
      its equality `eq`. */
  predicate Holds(op: Ordering, lt: bool, gt: bool, eq: bool) {
    match op
    case Lt => lt
    case Le => lt || eq
    case Ge => gt || eq
    case Gt => gt
  }

  /** `a < b`, `a <= b`, `a >= b` or `a > b` as Python evaluates them on
      the values the evaluator can hold: numbers by value, strings and
      datetimes by text; mixing kinds, or comparing against None, raises
      TypeError. */
  function Compare(op: Ordering, a: Value, b: Value): (r: Result<bool, Exception>)
    ensures r.Err? <==>
        !((IsNumber(a) && IsNumber(b)) || (a.Str? && b.Str?) || (a.Time? && b.Time?))
    ensures r.Err? ==> r.error == TypeError
    ensures IsNumber(a) && IsNumber(b) ==> r == Ok(Holds(op,
      Less(NumberOf(a), NumberOf(b)), Less(NumberOf(b), NumberOf(a)),
        SameValue(NumberOf(a), NumberOf(b))))
    ensures a.Str? && b.Str? ==>
        r == Ok(Holds(op, LexLess(a.s, b.s), LexLess(b.s, a.s), a.s == b.s))
    ensures a.Time? && b.Time? ==>
        r == Ok(Holds(op, LexLess(a.text, b.text), LexLess(b.text, a.text), a == b))
  {
    if IsNumber(a) && IsNumber(b) then
      var x, y := NumberOf(a), NumberOf(b);
      match op
      case Lt => Ok(Less(x, y))
      case Le => Ok(LessEq(x, y))
      case Ge => Ok(LessEq(y, x))
      case Gt => Ok(Less(y, x))
    else if a.Str? && b.Str? then
      match op
      case Lt => Ok(LexLess(a.s, b.s))
      case Le => Ok(LexLess(a.s, b.s) || a.s == b.s)
      case Ge => Ok(LexLess(b.s, a.s) || a.s == b.s)
      case Gt => Ok(LexLess(b.s, a.s))
    else if a.Time? && b.Time? then
      match op
      case Lt => Ok(LexLess(a.text, b.text))
      case Le => Ok(LexLess(a.text, b.text) || a.text == b.text)
      case Ge => Ok(LexLess(b.text, a.text) || a.text == b.text)
      case Gt => Ok(LexLess(b.text, a.text))
    else Err(TypeError)
  }

  /** String order is a strict total order: exactly one of `a < b`,
      `a == b`, `b < a` holds. */
  lemma {:induction false} LexTrichotomy(a: string, b: string)
    ensures LexLess(a, b) || a == b || LexLess(b, a)
    ensures !(LexLess(a, b) && LexLess(b, a))
    ensures LexLess(a, b) ==> a != b
  {
    if |a| > 0 && |b| > 0 && a[0] == b[0] {
      LexTrichotomy(a[1..], b[1..]);
      if a[1..] == b[1..] {
        assert a == [a[0]] + a[1..] && b == [b[0]] + b[1..];
      }
    }
  }

  /** Python's `<=` is `<` or equal, and `>` is `<` flipped, for every pair
      of values it accepts. */
  lemma CompareConsistent(a: Value, b: Value)
    requires Compare(Lt, a, b).Ok?
    ensures Compare(Gt, b, a) == Compare(Lt, a, b)
    ensures Compare(Ge, a, b) == Compare(Le, b, a)
    ensures Compare(Le, a, b).value <==> !Compare(Gt, a, b).value
  {
    if a.Str? && b.Str? {
      LexTrichotomy(a.s, b.s);
    } else if a.Time? && b.Time? {
      LexTrichotomy(a.text, b.text);
    }
  }
}
