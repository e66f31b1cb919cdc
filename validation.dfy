/** The column checks a rule runs before it computes anything: the
    `for col in [...]` loops at the head of every `apply`. */
module Validation {
  import opened Tables
  import opened HelperUtils

  /** One entry of a rule's check loop. */
  datatype Requirement =
    | FractionalPercentage(col: string) // float dtype and max <= 1.0 (analog outputs in %)
    | BinaryStatus(col: string)         // int dtype and max <= 1 (motor or valve status)
    | IntegerTyped(col: string)         // int dtype only (boiler stage numbers)
    | UnsetAttribute(attribute: string) // the loop's list reads an attribute __init__ never set

  /** Series.max(): the largest present value, None (NaN) when there is none. */
  function MaxOf(xs: seq<Option<real>>): Option<real>
  {
    if xs == [] then None
    else
      var rest := MaxOf(xs[1..]);
      match xs[0]
      case None => rest
      case Some(v) => if rest.Some? && rest.value > v then rest else Some(v)
  }

  /** `Series.max() > bound` is true exactly when some present value
      exceeds the bound; NaNs are skipped, and an all-NaN or empty column
      compares false. */
  lemma {:induction false} MaxOfExceeds(xs: seq<Option<real>>, bound: real)
    ensures (MaxOf(xs).Some? && MaxOf(xs).value > bound) <==>
            exists i :: 0 <= i < |xs| && xs[i].Some? && xs[i].value > bound
  {
    if xs != [] {
      MaxOfExceeds(xs[1..], bound);
      if exists i :: 0 <= i < |xs[1..]| && xs[1..][i].Some? && xs[1..][i].value > bound {
        var i :| 0 <= i < |xs[1..]| && xs[1..][i].Some? && xs[1..][i].value > bound;
        assert xs[i + 1] == xs[1..][i];
      }
      if exists i :: 0 <= i < |xs| && xs[i].Some? && xs[i].value > bound {
        var i :| 0 <= i < |xs| && xs[i].Some? && xs[i].value > bound;
        if i > 0 {
          assert xs[1..][i - 1] == xs[i];
        }
      }
    }
  }

  function Values(c: Column): (vs: seq<Option<real>>)
    ensures |vs| == c.Length()
  {
    seq(c.Length(), i requires 0 <= i < c.Length() => c.Cell(i))
  }

  /** df[col].max() > bound */
  predicate MaxAbove(c: Column, bound: real) {
    var m := MaxOf(Values(c));
    m.Some? && m.value > bound
  }

  /** One check of the loop: None when it passes, else what it raises. */
  function Check(f: Frame, r: Requirement): Option<Fault>
  {
    match r
    case UnsetAttribute(a) => Some(AttributeError(a))
    case FractionalPercentage(col) =>
      if col !in f.columns then Some(KeyError(col))
      else if !f.columns[col].FloatCol? then Some(TypeError(FloatCheckErr(col)))
      else if MaxAbove(f.columns[col], 1.0) then Some(TypeError(FloatMaxCheckErr(col)))
      else None
    case BinaryStatus(col) =>
      if col !in f.columns then Some(KeyError(col))
      else if !f.columns[col].IntCol? then Some(TypeError(IntCheckErr(col)))
      else if MaxAbove(f.columns[col], 1.0) then Some(TypeError(IntMaxCheckErr(col)))
      else None
    case IntegerTyped(col) =>
      if col !in f.columns then Some(KeyError(col))
      else if !f.columns[col].IntCol? then Some(TypeError(IntCheckErr(col)))
      else None
  }

  /** The whole loop: the first failing check raises. */
  function CheckAll(f: Frame, rs: seq<Requirement>): (e: Option<Fault>)
    ensures e.None? <==> forall k :: 0 <= k < |rs| ==> Check(f, rs[k]).None?
    ensures e.Some? ==>
              exists k :: 0 <= k < |rs| && e == Check(f, rs[k]) && forall j :: 0 <= j < k ==> Check(f, rs[j]).None?
  {
    if rs == [] then None
    else if Check(f, rs[0]).Some? then Check(f, rs[0])
    else
      var e := CheckAll(f, rs[1..]);
      assert forall k :: 1 <= k < |rs| ==> rs[k] == rs[1..][k - 1];
      assert e.Some? ==> exists k :: 0 <= k < |rs| && e == Check(f, rs[k]) && forall j :: 0 <= j < k ==> Check(f, rs[j]).None? by {
        if e.Some? {
          var k :| 0 <= k < |rs| - 1 && e == Check(f, rs[1..][k]) && forall j :: 0 <= j < k ==> Check(f, rs[1..][j]).None?;
          assert forall j :: 0 <= j < k + 1 ==> Check(f, rs[j]).None?;
          assert e == Check(f, rs[k + 1]);
        }
      }
      e
  }

  /** A binary-status column passes exactly when it is int-typed with no
      value above 1 (negative values pass); a float or bool column fails
      with the int message, an int column with a value above 1 fails with
      the range message, and a missing column is a KeyError. */
  lemma {:induction false} BinaryStatusVerdict(f: Frame, col: string)
    ensures Check(f, BinaryStatus(col)) == None <==>
      col in f.columns && f.columns[col].IntCol? &&
      forall i :: 0 <= i < |f.columns[col].ints| ==> f.columns[col].ints[i] <= 1
    ensures Check(f, BinaryStatus(col)) == Some(TypeError(IntCheckErr(col))) <==>
      col in f.columns && !f.columns[col].IntCol?
    ensures Check(f, BinaryStatus(col)) == Some(TypeError(IntMaxCheckErr(col))) <==>
      col in f.columns && f.columns[col].IntCol? &&
      exists i :: 0 <= i < |f.columns[col].ints| && f.columns[col].ints[i] > 1
    ensures Check(f, BinaryStatus(col)) == Some(KeyError(col)) <==> col !in f.columns
  {
    if IntCheckErr(col) == IntMaxCheckErr(col) {
      MessageIdentifiesFailure(IntType, col, IntRange, col);
    }
    if col in f.columns && f.columns[col].IntCol? {
      var c := f.columns[col];
      var vs := Values(c);
      MaxOfExceeds(vs, 1.0);
      assert forall i :: 0 <= i < |c.ints| ==> vs[i] == Some(c.ints[i] as real);
    }
  }

  /** A percentage column passes exactly when it is float-typed with no
      present value above 1.0 (NaNs and negative values pass); any other
      dtype fails with the float message, a value above 1.0 with the range
      message, and a missing column is a KeyError. */
  lemma {:induction false} PercentageVerdict(f: Frame, col: string)
    ensures Check(f, FractionalPercentage(col)) == None <==>
      col in f.columns && f.columns[col].FloatCol? &&
      forall i :: 0 <= i < |f.columns[col].reals| && f.columns[col].reals[i].Some? ==>
        f.columns[col].reals[i].value <= 1.0
    ensures Check(f, FractionalPercentage(col)) == Some(TypeError(FloatCheckErr(col))) <==>
      col in f.columns && !f.columns[col].FloatCol?
    ensures Check(f, FractionalPercentage(col)) == Some(TypeError(FloatMaxCheckErr(col))) <==>
      col in f.columns && f.columns[col].FloatCol? &&
      exists i :: 0 <= i < |f.columns[col].reals| && f.columns[col].reals[i].Some? &&
        f.columns[col].reals[i].value > 1.0
    ensures Check(f, FractionalPercentage(col)) == Some(KeyError(col)) <==> col !in f.columns
  {
    if FloatCheckErr(col) == FloatMaxCheckErr(col) {
      MessageIdentifiesFailure(FloatType, col, FloatRange, col);
    }
    if col in f.columns && f.columns[col].FloatCol? {
      var c := f.columns[col];
      var vs := Values(c);
      MaxOfExceeds(vs, 1.0);
      assert forall i :: 0 <= i < |c.reals| ==> vs[i] == c.reals[i];
    }
  }

  /** The stage-number check only looks at the dtype. */
  lemma {:induction false} IntegerTypedVerdict(f: Frame, col: string)
    ensures Check(f, IntegerTyped(col)) == None <==> col in f.columns && f.columns[col].IntCol?
    ensures Check(f, IntegerTyped(col)) == Some(TypeError(IntCheckErr(col))) <==>
      col in f.columns && !f.columns[col].IntCol?
  {
  }
}
