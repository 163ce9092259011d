/**
 * Row values as the list pages see them after loading: each column of a
 * database row is `null`, an integer or a string, and the free-text search
 * tests every column with `value && value.toString().toLowerCase().includes(term.toLowerCase())`.
 */
module Records {
  import opened Text

  datatype Value = Null | Int(n: int) | Str(s: string)

  /** JavaScript truthiness: `null`, `0` and `""` are falsy. */
  predicate Truthy(v: Value) {
    match v
    case Null => false
    case Int(n) => n != 0
    case Str(s) => s != ""
  }

  /** `value.toString()`, which the pages only call on non-null values. */
  function ToText(v: Value): string
    requires !v.Null?
  {
    match v
    case Int(n) => IntToString(n)
    case Str(s) => s
  }

  /** One column passes the search: it is truthy and its lower-cased text contains the lower-cased term. */
  predicate FieldMatches(v: Value, term: string) {
    Truthy(v) && Contains(Lower(ToText(v)), Lower(term))
  }

  /** `Object.values(row).some(...)` with the test above. */
  predicate AnyFieldMatches(values: seq<Value>, term: string) {
    exists i | 0 <= i < |values| :: FieldMatches(values[i], term)
  }

  /** The search does not see the case of the term. */
  lemma SearchIgnoresTermCase(values: seq<Value>, term: string)
    ensures AnyFieldMatches(values, term) <==> AnyFieldMatches(values, Lower(term))
  {
    LowerIdempotent(term);
  }

  /** A column holding the term verbatim makes the row match; an empty term matches any truthy column. */
  lemma VerbatimOccurrenceMatches(values: seq<Value>, i: nat, term: string)
    requires i < |values| && Truthy(values[i])
    requires Contains(ToText(values[i]), term)
    ensures AnyFieldMatches(values, term)
  {
    ContainsLower(ToText(values[i]), term);
    assert FieldMatches(values[i], term);
  }
}
