/** The Python objects a crawler can hand back, and the built-in
    conversions the collector applies to them: truth value, `str()`,
    `float()`, `int()` and `Mapping.get`. */
module RawValues {
  import opened Wrappers
  import opened PyText
  import opened Dates

  /** A Python object as far as the collector can tell objects apart.
      `Dict` is any `Mapping` (its items in iteration order), `List` is a
      `list`, `DateTime` a `datetime` at midnight; `Other` is any other object
      (tuples, sets, custom classes), known only by its truth value, and
      taken to be refused by `int()` and `float()`. */
  datatype RawValue =
    | Null
    | Bool(b: bool)
    | Int(i: int)
    | Float(x: real)
    | Str(s: string)
    | DateTime(date: CalendarDate)
    | Dict(entries: seq<(RawValue, RawValue)>)
    | List(items: seq<RawValue>)
    | Other(truthy: bool)

  /** The parts of the Python runtime the model takes as given:
      `parseFloat(s)` is `float(s)` on a string (`None` for `ValueError`),
      and `render(v)` is `str(v)` for a float, a container or another object. */
  datatype Runtime = Runtime(parseFloat: string -> Option<real>, render: RawValue -> string)

  /** Python's truth value (`bool(v)`). */
  predicate Truthy(v: RawValue) {
    match v
    case Null => false
    case Bool(b) => b
    case Int(i) => i != 0
    case Float(x) => x != 0.0
    case Str(s) => s != []
    case DateTime(_) => true
    case Dict(es) => es != []
    case List(xs) => xs != []
    case Other(t) => t
  }

  predicate HasKey(entries: seq<(RawValue, RawValue)>, key: string) {
    exists k :: 0 <= k < |entries| && entries[k].0 == Str(key)
  }

  /** `mapping.get(key)`: the value stored under the string `key`, or
      `None` when the key is absent. */
  function Get(entries: seq<(RawValue, RawValue)>, key: string): (v: RawValue)
    ensures !HasKey(entries, key) ==> v == Null
    ensures HasKey(entries, key) ==> exists k :: 0 <= k < |entries| && entries[k] == (Str(key), v)
  {
    if entries == [] then Null
    else if entries[0].0 == Str(key) then entries[0].1
    else
      assert HasKey(entries, key) ==> HasKey(entries[1..], key) by {
        if HasKey(entries, key) {
          var k :| 0 <= k < |entries| && entries[k].0 == Str(key);
          assert entries[1..][k - 1] == entries[k];
        }
      }
      var v := Get(entries[1..], key);
      assert HasKey(entries[1..], key) ==> exists k :: 0 <= k < |entries| && entries[k] == (Str(key), v) by {
        if HasKey(entries[1..], key) {
          var k :| 0 <= k < |entries[1..]| && entries[1..][k] == (Str(key), v);
          assert entries[k + 1] == (Str(key), v);
        }
      }
      v
  }

  /** `str(d)` of a `datetime` at midnight. */
  function DateTimeText(d: CalendarDate): string {
    FormatDate(d, FullYearDashed) + " 00:00:00"
  }

  /** `str(v)`: the repr-free text of a value; an int's text is read back
      by `int()` as that int. */
  function ToStr(v: RawValue, rt: Runtime): (r: string)
    ensures v.Null? ==> r == "None"
    ensures v.Bool? ==> r == if v.b then "True" else "False"
    ensures v.Str? ==> r == v.s
    ensures v.Int? ==> ParseIntLiteral(r) == Some(v.i)
  {
    match v
    case Null => "None"
    case Bool(b) => if b then "True" else "False"
    case Int(i) =>
      IntLiteralRoundTrip(i);
      IntToDecimal(i)
    case Str(s) => s
    case DateTime(d) => DateTimeText(d)
    case _ => rt.render(v)
  }

  /** `str(v or "")`: a falsy value reads as the empty string. */
  function StrOrEmpty(v: RawValue, rt: Runtime): (r: string)
    ensures !Truthy(v) ==> r == []
    ensures v.Str? ==> r == v.s
  {
    if Truthy(v) then ToStr(v, rt) else ""
  }

  /** `float(v)`; `None` stands for the `TypeError` or `ValueError` raised
      for objects that are not numbers or numeric strings. */
  function ToFloat(v: RawValue, rt: Runtime): (r: Option<real>)
    ensures r.Some? ==> v.Bool? || v.Int? || v.Float? || v.Str?
    ensures v.Int? ==> r == Some(v.i as real)
    ensures v.Float? ==> r == Some(v.x)
    ensures v.Str? ==> r == rt.parseFloat(v.s)
  {
    match v
    case Bool(b) => Some(if b then 1.0 else 0.0)
    case Int(i) => Some(i as real)
    case Float(x) => Some(x)
    case Str(s) => rt.parseFloat(s)
    case _ => None
  }

  /** `int(x)` truncates a float toward zero. */
  function Truncate(x: real): (n: int)
    ensures 0.0 <= x ==> n as real <= x < n as real + 1.0
    ensures x < 0.0 ==> n as real - 1.0 < x <= n as real
  {
    if x >= 0.0 then x.Floor else -((-x).Floor)
  }

  /** `int(v)`; `None` stands for the `TypeError` or `ValueError` raised
      for objects that are not integral numbers or integer literals. */
  function ToInt(v: RawValue): (r: Option<int>)
    ensures r.Some? ==> v.Bool? || v.Int? || v.Float? || v.Str?
    ensures v.Int? ==> r == Some(v.i)
    ensures v.Float? ==> r == Some(Truncate(v.x))
    ensures v.Str? ==> r == ParseIntLiteral(v.s)
  {
    match v
    case Bool(b) => Some(if b then 1 else 0)
    case Int(i) => Some(i)
    case Float(x) => Some(Truncate(x))
    case Str(s) => ParseIntLiteral(s)
    case _ => None
  }

  /** `int()` and `float()` agree on the values both accept: a bool or an
      int converts to the same number either way, a float's `int()` is its
      `float()` truncated, and `int(str(i))` is `i`. */
  lemma ConversionsAgree(v: RawValue, rt: Runtime)
    ensures v.Bool? || v.Int? ==> ToInt(v).Some? && ToFloat(v, rt) == Some(ToInt(v).value as real)
    ensures v.Float? ==> ToFloat(v, rt).Some? && ToInt(v) == Some(Truncate(ToFloat(v, rt).value))
    ensures v.Int? ==> ToInt(Str(ToStr(v, rt))) == ToInt(v)
    ensures v.Null? || v.DateTime? || v.Dict? || v.List? || v.Other? ==> ToInt(v).None? && ToFloat(v, rt).None?
  {
  }
}
