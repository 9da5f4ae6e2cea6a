/**
 * The values a cell of the paper table can hold once pandas has read the CSV
 * file, and the three Python behaviours of a cell the pipeline depends on:
 * truthiness, formatting into an f-string, and the per-cell tests made by
 * `Series.str.contains(..., case=False, na=False)` and `Series == value`.
 */
module Cells {
  import opened Text

  /**
   * A table cell: a string, Python's `None` (what the pipeline itself stores
   * for an absent value), or pandas' NaN (what the CSV reader stores for an
   * empty field).
   */
  datatype Cell = Str(s: string) | Null | NaN

  /** Python truthiness: `None` and `""` are false, NaN is true. */
  function Truthy(c: Cell): (b: bool)
    ensures b <==> !c.Null? && Format(c) != ""
  {
    match c
    case Str(s) => s != ""
    case Null => false
    case NaN => true
  }

  /** How `f"{c}"` prints a cell. */
  function Format(c: Cell): (printed: string)
    ensures c.Str? ==> printed == c.s
    ensures '\n' in printed ==> c.Str?
    ensures !c.Str? ==> printed != ""
  {
    match c
    case Str(s) => s
    case Null => "None"
    case NaN => "nan"
  }

  /**
   * One cell of `column.str.contains(query, case=False, na=False)`, with the
   * query read as a literal string and case folded on ASCII letters.
   */
  function ContainsIgnoringCase(c: Cell, query: string): (b: bool)
    ensures b ==> c.Str? && |query| <= |c.s|
    ensures query == "" ==> (b <==> c.Str?)
  {
    c.Str? && Contains(Lower(c.s), Lower(query))
  }

  /** One cell of `column == value`: NaN and `None` never compare equal. */
  function EqualsValue(c: Cell, value: Cell): (b: bool)
    ensures b <==> c.Str? && c == value
    ensures c.NaN? || value.NaN? ==> !b
  {
    c.Str? && value.Str? && c.s == value.s
  }

  /**
   * A string cell matches an active query exactly when the lower-cased query
   * occurs at some position of the lower-cased text; a cell that is not a
   * string never matches.
   */
  lemma ContainsIgnoringCaseIff(c: Cell, query: string)
    ensures ContainsIgnoringCase(c, query) <==>
      c.Str? && exists i: nat :: OccursAt(Lower(c.s), Lower(query), i)
  {
    if c.Str? {
      ContainsIff(Lower(c.s), Lower(query));
    }
  }

  /** The test ignores case on both sides: lower-casing the text or the query changes nothing. */
  lemma {:induction false} ContainsIgnoringCaseFolds(text: string, query: string)
    ensures ContainsIgnoringCase(Str(Lower(text)), query) == ContainsIgnoringCase(Str(text), query)
    ensures ContainsIgnoringCase(Str(text), Lower(query)) == ContainsIgnoringCase(Str(text), query)
  {
    LowerTwice(text);
    LowerTwice(query);
  }

  lemma LowerTwice(s: string)
    ensures Lower(Lower(s)) == Lower(s)
  {
    forall i | 0 <= i < |s| ensures Lower(Lower(s))[i] == Lower(s)[i] {
      var c := s[i];
      if 'A' <= c <= 'Z' {
        assert LowerChar(c) == (c as int + 32) as char;
      }
    }
  }
}
