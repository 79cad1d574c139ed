/** The frontmatter values the YAML parser hands to the build scripts, with JavaScript's
    truthiness and `length`. */
module Yaml {
  import opened Wrappers
  import opened Text

  /** A parsed value. `Undefined` is what reading an absent key gives; `Timestamp` is the
      `Date` object an unquoted YAML date becomes. */
  datatype Value =
    | Undefined
    | Null
    | Bool(b: bool)
    | Number(n: int)
    | Str(s: string)
    | Timestamp(text: string)
    | List(items: seq<Value>)

  type Frontmatter = map<string, Value>

  /** `data[field]` */
  function Lookup(data: Frontmatter, field: string): (v: Value)
    ensures field !in data ==> v == Undefined
  {
    if field in data then data[field] else Undefined
  }

  /** JavaScript truthiness: `undefined`, `null`, `false`, `0` and `""` are false;
      every object, the empty array included, is true. */
  predicate Truthy(v: Value) {
    match v
    case Undefined => false
    case Null => false
    case Bool(b) => b
    case Number(n) => n != 0
    case Str(s) => s != ""
    case Timestamp(_) => true
    case List(_) => true
  }

  /** `v.length`: defined for strings and arrays only. */
  function Length(v: Value): (r: Option<nat>)
    ensures r.Some? <==> v.Str? || v.List?
  {
    match v
    case Str(s) => Some(|s|)
    case List(items) => Some(|items|)
    case _ => None
  }

  /** `a || b` */
  function Or(a: Value, b: Value): (r: Value)
    ensures Truthy(a) ==> r == a
    ensures !Truthy(a) ==> r == b
  {
    if Truthy(a) then a else b
  }

  /** How the submission code writes a list of strings into frontmatter, as a flow
      sequence of double-quoted items: `[${xs.map(x => `"${x}"`).join(', ')}]`. */
  function QuotedList(xs: seq<string>): string {
    "[" + Join(seq(|xs|, i requires 0 <= i < |xs| => "\"" + xs[i] + "\""), ", ") + "]"
  }

  lemma QuotedListSingleLine(xs: seq<string>)
    requires forall i :: 0 <= i < |xs| ==> '\n' !in xs[i]
    ensures '\n' !in QuotedList(xs)
  {
    var quoted := seq(|xs|, i requires 0 <= i < |xs| => "\"" + xs[i] + "\"");
    assert forall i :: 0 <= i < |quoted| ==> '\n' !in quoted[i];
    JoinAvoids(quoted, ", ", '\n');
  }
}
