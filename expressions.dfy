/** The vectorised pandas expressions the rules build their helper
    columns from, evaluated row by row, and the in-place assignment of
    those helper columns (`df['pump_check'] = ...`). */
module Expressions {
  import opened Tables

  /** A numeric expression over columns and configured scalars. */
  datatype Term =
    | Col(name: string)                    // df[name]
    | Num(value: real)                     // a configured threshold or constant
    | Plus(left: Term, right: Term)
    | Minus(left: Term, right: Term)
    | Times(left: Term, right: Term)
    | Quotient(left: Term, right: Term)
    | Magnitude(arg: Term)                 // abs(...)
    | Lag(arg: Term)                       // .shift(): the previous row, NaN in row 0
    | FillMissing(arg: Term, fill: real)   // .fillna(fill)

  datatype Op = Lt | Gt | Ge | Eq

  /** A row-wise comparison giving a bool column. */
  datatype Test =
    | Compare(op: Op, left: Term, right: Term)
    | CompareText(op: Op, left: Term, text: string) // a Series ordered against a str scalar

  /** A helper column a rule assigns. */
  datatype Derivation =
    | Indicator(helper: string, test: Test) // a bool column
    | Measure(helper: string, term: Term)   // a float column

  /** The columns an expression reads, in Python's evaluation order. */
  function Refs(t: Term): seq<string>
  {
    match t
    case Col(n) => [n]
    case Num(_) => []
    case Plus(a, b) => Refs(a) + Refs(b)
    case Minus(a, b) => Refs(a) + Refs(b)
    case Times(a, b) => Refs(a) + Refs(b)
    case Quotient(a, b) => Refs(a) + Refs(b)
    case Magnitude(a) => Refs(a)
    case Lag(a) => Refs(a)
    case FillMissing(a, _) => Refs(a)
  }

  function TestRefs(test: Test): seq<string>
  {
    match test
    case Compare(_, a, b) => Refs(a) + Refs(b)
    case CompareText(_, a, _) => Refs(a)
  }

  function DerivationRefs(d: Derivation): seq<string>
  {
    match d
    case Indicator(_, test) => TestRefs(test)
    case Measure(_, t) => Refs(t)
  }

  /** The first column read that the table lacks: the KeyError raised. */
  function FirstAbsent(f: Frame, names: seq<string>): (r: Option<string>)
    ensures r.None? <==> forall n :: n in names ==> n in f.columns
    ensures r.Some? ==> r.value in names && r.value !in f.columns
  {
    if names == [] then None
    else if names[0] !in f.columns then Some(names[0])
    else
      var r := FirstAbsent(f, names[1..]);
      assert forall n :: n in names ==> n == names[0] || n in names[1..];
      r
  }

  /** The value of an expression in row i; None is NaN, and any arithmetic
      with NaN is NaN. */
  function At(f: Frame, t: Term, i: nat): Option<real>
    requires f.Valid() && i < |f.index|
    requires forall n :: n in Refs(t) ==> n in f.columns
    decreases t
  {
    match t
    case Col(n) => f.columns[n].Cell(i)
    case Num(v) => Some(v)
    case Plus(a, b) =>
      var x, y := At(f, a, i), At(f, b, i);
      if x.Some? && y.Some? then Some(x.value + y.value) else None
    case Minus(a, b) =>
      var x, y := At(f, a, i), At(f, b, i);
      if x.Some? && y.Some? then Some(x.value - y.value) else None
    case Times(a, b) =>
      var x, y := At(f, a, i), At(f, b, i);
      if x.Some? && y.Some? then Some(Product(x.value, y.value)) else None
    case Quotient(a, b) =>
      var x, y := At(f, a, i), At(f, b, i);
      if x.Some? && y.Some? && y.value != 0.0 then Some(Ratio(x.value, y.value)) else None
    case Magnitude(a) =>
      var x := At(f, a, i);
      if x.Some? then Some(Abs(x.value)) else None
    case Lag(a) =>
      if i == 0 then None else At(f, a, i - 1)
    case FillMissing(a, v) =>
      var x := At(f, a, i);
      if x.Some? then x else Some(v)
  }

  function Abs(x: real): (y: real)
    ensures y >= 0.0 && (y == x || y == -x)
  {
    if x < 0.0 then -x else x
  }

  // Kept as functions so that the solver treats the nonlinear operations
  // as opaque terms wherever their values do not matter.
  function Product(x: real, y: real): real { x * y }

  function Ratio(x: real, y: real): real
    requires y != 0.0
  {
    x / y
  }

  /** A comparison with NaN on either side is False. */
  predicate Holds(op: Op, x: Option<real>, y: Option<real>)
  {
    x.Some? && y.Some? &&
    match op
    case Lt => x.value < y.value
    case Gt => x.value > y.value
    case Ge => x.value >= y.value
    case Eq => x.value == y.value
  }

  predicate HoldsAt(f: Frame, test: Test, i: nat)
    requires f.Valid() && i < |f.index| && test.Compare?
    requires forall n :: n in TestRefs(test) ==> n in f.columns
  {
    Holds(test.op, At(f, test.left, i), At(f, test.right, i))
  }

  /** The column a derivation assigns, or what evaluating it raises. */
  function Derive(f: Frame, d: Derivation): (r: Result<Column>)
    requires f.Valid()
    ensures r.Ok? ==> r.value.Length() == |f.index|
  {
    match FirstAbsent(f, DerivationRefs(d))
    case Some(n) => Err(KeyError(n))
    case None =>
      match d
      case Indicator(_, test) =>
        if test.CompareText? then Err(InvalidComparison(test.text)) else Ok(TestColumn(f, test))
      case Measure(_, t) => Ok(TermColumn(f, t))
  }

  /** The bool column of a comparison, row by row. */
  function TestColumn(f: Frame, test: Test): (c: Column)
    requires f.Valid() && test.Compare?
    requires forall n :: n in TestRefs(test) ==> n in f.columns
    ensures c.BoolCol? && |c.bools| == |f.index|
  {
    BoolCol(seq(|f.index|, i requires 0 <= i < |f.index| => HoldsAt(f, test, i)))
  }

  /** The float column of an expression, row by row. */
  function TermColumn(f: Frame, t: Term): (c: Column)
    requires f.Valid()
    requires forall n :: n in Refs(t) ==> n in f.columns
    ensures c.FloatCol? && |c.reals| == |f.index|
  {
    FloatCol(seq(|f.index|, i requires 0 <= i < |f.index| => At(f, t, i)))
  }

  function HelperNames(ds: seq<Derivation>): (hs: seq<string>)
    ensures |hs| == |ds|
    ensures forall k :: 0 <= k < |ds| ==> hs[k] == ds[k].helper
  {
    seq(|ds|, k requires 0 <= k < |ds| => ds[k].helper)
  }

  /** The helper columns assigned one after another, each evaluated
      against the table as the assignments before it left it. The first
      one that raises stops the run and leaves the earlier ones in place. */
  function RunDerivations(f: Frame, ds: seq<Derivation>): (run: Applied)
    requires f.Valid()
    ensures run.frame.Valid() && run.frame.index == f.index
    ensures forall n :: n in f.columns && n !in HelperNames(ds) ==>
      n in run.frame.columns && run.frame.columns[n] == f.columns[n]
    ensures forall n :: n in run.frame.columns ==> n in f.columns || n in HelperNames(ds)
    ensures run.raised.None? ==> forall n :: n in HelperNames(ds) ==> n in run.frame.columns
    decreases |ds|
  {
    if ds == [] then Applied(f, None)
    else
      var m := |ds| - 1;
      assert HelperNames(ds) == HelperNames(ds[..m]) + [ds[m].helper];
      var prior := RunDerivations(f, ds[..m]);
      if prior.raised.Some? then prior
      else
        match Derive(prior.frame, ds[m])
        case Err(e) => Applied(prior.frame, Some(e))
        case Ok(c) => Applied(prior.frame.Put(ds[m].helper, c), None)
  }

  /** Once an assignment raises, the later ones never run. */
  lemma {:induction false} RaisedPersists(f: Frame, ds: seq<Derivation>, k: nat)
    requires f.Valid() && k <= |ds|
    requires RunDerivations(f, ds[..k]).raised.Some?
    ensures RunDerivations(f, ds) == RunDerivations(f, ds[..k])
    decreases |ds| - k
  {
    if k < |ds| {
      var ds' := ds[..k + 1];
      assert ds'[..k] == ds[..k];
      assert RunDerivations(f, ds') == RunDerivations(f, ds[..k]);
      if k + 1 == |ds| {
        assert ds' == ds;
      } else {
        assert ds[..k + 1] == ds';
        RaisedPersists(f, ds, k + 1);
      }
    } else {
      assert ds[..k] == ds;
    }
  }

  /** A run of one assignment: the column is assigned, or the table is
      left as it was and the fault raised. */
  lemma {:induction false} RunSingle(f: Frame, ds: seq<Derivation>)
    requires f.Valid() && |ds| == 1
    ensures RunDerivations(f, ds) ==
      match Derive(f, ds[0])
      case Err(e) => Applied(f, Some(e))
      case Ok(c) => Applied(f.Put(ds[0].helper, c), None)
  {
    assert ds[..0] == [];
  }

  /** A run that raised nothing adds exactly the helper columns. */
  lemma {:induction false} RunKeys(f: Frame, ds: seq<Derivation>)
    requires f.Valid() && RunDerivations(f, ds).raised.None?
    ensures RunDerivations(f, ds).frame.columns.Keys == f.columns.Keys + (set h | h in HelperNames(ds))
  {
  }

  /** One more assignment on top of a run that raised nothing so far. */
  lemma {:induction false} RunExtend(f: Frame, ds: seq<Derivation>, k: nat)
    requires f.Valid() && k < |ds| && RunDerivations(f, ds[..k]).raised.None?
    ensures var prior := RunDerivations(f, ds[..k]).frame;
      RunDerivations(f, ds[..k + 1]) ==
        match Derive(prior, ds[k])
        case Err(e) => Applied(prior, Some(e))
        case Ok(c) => Applied(prior.Put(ds[k].helper, c), None)
  {
    assert ds[..k + 1][..k] == ds[..k];
  }

  /** Assigns the helper columns in place, as the rule bodies do. */
  method RunDerivationsInPlace(df: DataFrame, ds: seq<Derivation>) returns (raised: Option<Fault>)
    requires df.Valid()
    modifies df
    ensures df.Valid()
    ensures Applied(df.Snapshot(), raised) == RunDerivations(old(df.Snapshot()), ds)
  {
    ghost var start := df.Snapshot();
    var k := 0;
    while k < |ds|
      invariant 0 <= k <= |ds|
      invariant df.Valid()
      invariant RunDerivations(start, ds[..k]) == Applied(df.Snapshot(), None)
    {
      RunExtend(start, ds, k);
      var c := Derive(df.Snapshot(), ds[k]);
      if c.Err? {
        RaisedPersists(start, ds, k + 1);
        return Some(c.fault);
      }
      df.SetItem(ds[k].helper, c.value);
      k := k + 1;
    }
    assert ds[..k] == ds;
    raised := None;
  }

  /** An expression reads nothing but the columns in Refs. */
  lemma {:induction false} AtAgrees(f: Frame, g: Frame, t: Term, i: nat)
    requires f.Valid() && g.Valid() && f.index == g.index && i < |f.index|
    requires forall n :: n in Refs(t) ==> n in f.columns && n in g.columns && f.columns[n] == g.columns[n]
    ensures At(f, t, i) == At(g, t, i)
    decreases t
  {
    match t
    case Col(_) =>
    case Num(_) =>
    case Plus(a, b) => AtAgrees(f, g, a, i); AtAgrees(f, g, b, i);
    case Minus(a, b) => AtAgrees(f, g, a, i); AtAgrees(f, g, b, i);
    case Times(a, b) => AtAgrees(f, g, a, i); AtAgrees(f, g, b, i);
    case Quotient(a, b) => AtAgrees(f, g, a, i); AtAgrees(f, g, b, i);
    case Magnitude(a) => AtAgrees(f, g, a, i);
    case Lag(a) => if i > 0 { AtAgrees(f, g, a, i - 1); }
    case FillMissing(a, _) => AtAgrees(f, g, a, i);
  }

  lemma {:induction false} FirstAbsentAgrees(f: Frame, g: Frame, names: seq<string>)
    requires forall n :: n in names ==> (n in f.columns <==> n in g.columns)
    ensures FirstAbsent(f, names) == FirstAbsent(g, names)
  {
    if names != [] {
      FirstAbsentAgrees(f, g, names[1..]);
    }
  }

  /** A derivation gives the same column on two tables that agree on the
      columns it reads. */
  lemma {:induction false} DeriveAgrees(f: Frame, g: Frame, d: Derivation)
    requires f.Valid() && g.Valid() && f.index == g.index
    requires forall n :: n in DerivationRefs(d) ==> (n in f.columns <==> n in g.columns)
    requires forall n :: n in DerivationRefs(d) && n in f.columns ==> f.columns[n] == g.columns[n]
    ensures Derive(f, d) == Derive(g, d)
  {
    FirstAbsentAgrees(f, g, DerivationRefs(d));
    if FirstAbsent(f, DerivationRefs(d)).None? {
      match d
      case Indicator(_, test) =>
        if test.Compare? {
          forall i | 0 <= i < |f.index|
            ensures HoldsAt(f, test, i) == HoldsAt(g, test, i)
          {
            AtAgrees(f, g, test.left, i);
            AtAgrees(f, g, test.right, i);
          }
          assert seq(|f.index|, i requires 0 <= i < |f.index| => HoldsAt(f, test, i)) ==
                 seq(|g.index|, i requires 0 <= i < |g.index| => HoldsAt(g, test, i));
        }
      case Measure(_, t) =>
        forall i | 0 <= i < |f.index|
          ensures At(f, t, i) == At(g, t, i)
        {
          AtAgrees(f, g, t, i);
        }
        assert seq(|f.index|, i requires 0 <= i < |f.index| => At(f, t, i)) ==
               seq(|g.index|, i requires 0 <= i < |g.index| => At(g, t, i));
    }
  }

  /** No derivation reads a column that one of them assigns. */
  predicate ReadsNoHelper(ds: seq<Derivation>)
  {
    forall k, n :: 0 <= k < |ds| && n in DerivationRefs(ds[k]) ==> n !in HelperNames(ds)
  }

  lemma {:induction false} PrefixKeepsConditions(ds: seq<Derivation>, m: nat)
    requires m <= |ds| && Distinct(HelperNames(ds)) && ReadsNoHelper(ds)
    ensures Distinct(HelperNames(ds[..m])) && ReadsNoHelper(ds[..m])
  {
    var init := ds[..m];
    assert HelperNames(init) == HelperNames(ds)[..m];
    forall k, n | 0 <= k < |init| && n in DerivationRefs(init[k])
      ensures n !in HelperNames(init)
    {
      assert init[k] == ds[k];
      assert n !in HelperNames(ds);
    }
  }

  lemma {:induction false} PriorKeepsInputs(f: Frame, ds: seq<Derivation>, n: string)
    requires f.Valid() && ds != [] && ReadsNoHelper(ds)
    requires n in DerivationRefs(ds[|ds| - 1])
    ensures var prior := RunDerivations(f, ds[..|ds| - 1]).frame;
      (n in prior.columns <==> n in f.columns) &&
      (n in f.columns ==> prior.columns[n] == f.columns[n])
  {
    var m := |ds| - 1;
    var hs := HelperNames(ds[..m]);
    assert hs == HelperNames(ds)[..m];
    assert n !in HelperNames(ds);
    assert n !in hs;
  }

  /** The last derivation sees, in the table the earlier ones left, the
      same columns it would see in the original table. */
  lemma {:induction false} LastSeesOriginal(f: Frame, ds: seq<Derivation>)
    requires f.Valid() && ds != [] && ReadsNoHelper(ds)
    ensures Derive(RunDerivations(f, ds[..|ds| - 1]).frame, ds[|ds| - 1]) == Derive(f, ds[|ds| - 1])
  {
    var m := |ds| - 1;
    var prior := RunDerivations(f, ds[..m]).frame;
    forall n | n in DerivationRefs(ds[m])
      ensures (n in prior.columns <==> n in f.columns)
      ensures n in f.columns ==> prior.columns[n] == f.columns[n]
    {
      PriorKeepsInputs(f, ds, n);
    }
    DeriveAgrees(prior, f, ds[m]);
  }

  /** One step of the run: the last assignment runs after the others
      succeeded, and succeeds on the table they left. */
  lemma {:induction false} RunStep(f: Frame, ds: seq<Derivation>)
    requires f.Valid() && ds != []
    ensures var prior := RunDerivations(f, ds[..|ds| - 1]);
      RunDerivations(f, ds).raised.None? <==>
        prior.raised.None? && Derive(prior.frame, ds[|ds| - 1]).Ok?
  {
  }

  /** When no derivation reads a helper column, the run raises exactly
      when some derivation fails to evaluate on the original table. */
  lemma {:induction false} RunSucceedsIff(f: Frame, ds: seq<Derivation>)
    requires f.Valid() && Distinct(HelperNames(ds)) && ReadsNoHelper(ds)
    ensures RunDerivations(f, ds).raised.None? <==> forall k :: 0 <= k < |ds| ==> Derive(f, ds[k]).Ok?
    decreases |ds|
  {
    if ds != [] {
      var m := |ds| - 1;
      PrefixKeepsConditions(ds, m);
      RunSucceedsIff(f, ds[..m]);
      RunStep(f, ds);
      LastSeesOriginal(f, ds);
      AllDeriveSplit(f, ds);
    }
  }

  lemma {:induction false} AllDeriveSplit(f: Frame, ds: seq<Derivation>)
    requires f.Valid() && ds != []
    ensures var m := |ds| - 1;
      (forall k :: 0 <= k < |ds| ==> Derive(f, ds[k]).Ok?) <==>
      (forall k :: 0 <= k < m ==> Derive(f, ds[..m][k]).Ok?) && Derive(f, ds[m]).Ok?
  {
    var m := |ds| - 1;
    assert forall k :: 0 <= k < m ==> ds[..m][k] == ds[k];
  }

  /** A successful run is the successful run of all but the last
      assignment, followed by the last one. */
  lemma {:induction false} RunStepOk(f: Frame, ds: seq<Derivation>)
    requires f.Valid() && ds != [] && RunDerivations(f, ds).raised.None?
    ensures var m := |ds| - 1;
      var prior, run := RunDerivations(f, ds[..m]), RunDerivations(f, ds).frame;
      prior.raised.None? && Derive(prior.frame, ds[m]).Ok? &&
      ds[m].helper in run.columns && run.columns[ds[m].helper] == Derive(prior.frame, ds[m]).value &&
      forall n :: n in prior.frame.columns && n != ds[m].helper ==>
        n in run.columns && run.columns[n] == prior.frame.columns[n]
  {
    var m := |ds| - 1;
    var prior := RunDerivations(f, ds[..m]);
    RunStep(f, ds);
    assert prior.frame.Valid();
    var d := Derive(prior.frame, ds[m]);
    assert d.value.Length() == |prior.frame.index|;
    var g := prior.frame.Put(ds[m].helper, d.value);
    assert g.columns == prior.frame.columns[ds[m].helper := d.value];
    assert RunDerivations(f, ds).frame == g;
  }

  /** One helper column of a successful run, when the helper names are
      distinct and no derivation reads a helper: its derivation evaluated
      on the original table. */
  lemma {:induction false} RunHelperColumn(f: Frame, ds: seq<Derivation>, k: nat)
    requires f.Valid() && Distinct(HelperNames(ds)) && ReadsNoHelper(ds) && k < |ds|
    requires RunDerivations(f, ds).raised.None?
    ensures Derive(f, ds[k]).Ok? && ds[k].helper in RunDerivations(f, ds).frame.columns
    ensures RunDerivations(f, ds).frame.columns[ds[k].helper] == Derive(f, ds[k]).value
    decreases |ds|
  {
    var m := |ds| - 1;
    RunStepOk(f, ds);
    LastSeesOriginal(f, ds);
    if k < m {
      var init := ds[..m];
      PrefixKeepsConditions(ds, m);
      assert init[k] == ds[k];
      RunHelperColumn(f, init, k);
      assert HelperNames(ds)[k] != HelperNames(ds)[m];
    }
  }

  /** When the helper names are distinct and no derivation reads a helper,
      each helper column of a successful run holds its derivation evaluated
      on the original table. */
  lemma {:induction false} RunReadsOnlyInputs(f: Frame, ds: seq<Derivation>)
    requires f.Valid() && Distinct(HelperNames(ds)) && ReadsNoHelper(ds)
    requires RunDerivations(f, ds).raised.None?
    ensures forall k :: 0 <= k < |ds| ==> Derive(f, ds[k]).Ok?
    ensures forall k :: 0 <= k < |ds| ==>
      RunDerivations(f, ds).frame.columns[ds[k].helper] == Derive(f, ds[k]).value
  {
    forall k | 0 <= k < |ds|
      ensures Derive(f, ds[k]).Ok?
      ensures RunDerivations(f, ds).frame.columns[ds[k].helper] == Derive(f, ds[k]).value
    {
      RunHelperColumn(f, ds, k);
    }
  }
}
