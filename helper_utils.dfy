/** The error messages a failed column check raises, and the unused
    `isLessThanOnePointOne` helper. */
module HelperUtils {
  import opened Tables

  /** The four column checks that can fail. */
  datatype Check = FloatType | FloatRange | IntType | IntRange

  const FLOAT_CHECK := " column failed with a check that the data is a float"
  const FLOAT_MAX_CHECK := " column failed with a check that the data is a float between 0.0 and 1.0"
  const INT_CHECK := " column failed with a check that the data is type int"
  const INT_MAX_CHECK := " column failed with a check that the status data for a motor or isolation valve is an int between 0 and 1"

  function FloatCheckErr(col: string): string {
    col + FLOAT_CHECK
  }

  function FloatMaxCheckErr(col: string): string {
    col + FLOAT_MAX_CHECK
  }

  function IntCheckErr(col: string): string {
    col + INT_CHECK
  }

  function IntMaxCheckErr(col: string): string {
    col + INT_MAX_CHECK
  }

  /** The text each builder appends to the column name. */
  function Suffix(check: Check): string {
    match check
    case FloatType => FLOAT_CHECK
    case FloatRange => FLOAT_MAX_CHECK
    case IntType => INT_CHECK
    case IntRange => INT_MAX_CHECK
  }

  function Message(check: Check, col: string): string {
    match check
    case FloatType => FloatCheckErr(col)
    case FloatRange => FloatMaxCheckErr(col)
    case IntType => IntCheckErr(col)
    case IntRange => IntMaxCheckErr(col)
  }

  /** The third-last and the last character of a suffix tell the checks apart. */
  lemma {:induction false} SuffixEnds(check: Check)
    ensures |Suffix(check)| >= 3
    ensures var s := Suffix(check);
      (s[|s| - 3], s[|s| - 1]) ==
        match check
        case FloatType => ('o', 't')
        case FloatRange => ('1', '0')
        case IntType => ('i', 't')
        case IntRange => ('d', '1')
  {
  }

  /** A message names its column and the check that failed: no two
      different (check, column) pairs give the same text. */
  lemma {:induction false} MessageIdentifiesFailure(c1: Check, col1: string, c2: Check, col2: string)
    requires Message(c1, col1) == Message(c2, col2)
    ensures c1 == c2 && col1 == col2
  {
    var m := Message(c1, col1);
    var s1, s2 := Suffix(c1), Suffix(c2);
    assert m == col1 + s1 && m == col2 + s2;
    SuffixEnds(c1);
    SuffixEnds(c2);
    assert m[|m| - 1] == s1[|s1| - 1] == s2[|s2| - 1];
    assert m[|m| - 3] == s1[|s1| - 3] == s2[|s2| - 3];
    assert |col1| == |col2|;
    assert col1 == m[..|col1|] == col2;
  }

  /** Returns True up to 1.0 and falls off the end (None) above it; the
      except branch cannot be reached with a number. */
  function IsLessThanOnePointOne(num: real): (r: Option<bool>)
    ensures r != Some(false)
    ensures r == Some(true) <==> num <= 1.0
  {
    if num <= 1.0 then Some(true) else None
  }
}
