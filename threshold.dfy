/** The shape shared by the threshold rules FaultConditionOne to
    FaultConditionEleven: check some columns, assign Boolean helper
    columns, AND them into an integer `fcN_flag` column, and delete the
    helpers unless `troubleshoot` is set. */
module ThresholdRules {
  import opened Tables
  import opened Validation
  import opened Expressions

  /** What one rule's `apply` does, read off its body. */
  datatype ThresholdRule = ThresholdRule(
    requirements: seq<Requirement>, // the `for col in [...]` checks, in order
    checks: seq<Derivation>,        // the helper columns, in assignment order
    flag: string,                   // "fcN_flag"
    troubleshoot: bool)
  {
    /** Every helper is a comparison, the helper names differ and the flag
        is not one of them. */
    predicate WellFormed() {
      (forall k :: 0 <= k < |checks| ==> checks[k].Indicator?) &&
      Distinct(HelperNames(checks)) && flag !in HelperNames(checks)
    }

    function Helpers(): seq<string> {
      HelperNames(checks)
    }
  }

  /** Row i of a helper column is True. */
  predicate IsTrue(c: Column, i: nat) {
    c.BoolCol? && i < |c.bools| && c.bools[i]
  }

  /** (df[h1] & df[h2] & ...).astype(int) */
  function FlagColumn(f: Frame, helpers: seq<string>): (c: Column)
    requires f.Valid()
    requires forall h :: h in helpers ==> h in f.columns
    ensures c.IntCol? && |c.ints| == |f.index|
    ensures forall i :: 0 <= i < |c.ints| ==>
      (c.ints[i] == 1 <==> forall k :: 0 <= k < |helpers| ==> IsTrue(f.columns[helpers[k]], i))
    ensures forall i :: 0 <= i < |c.ints| ==> c.ints[i] == 0 || c.ints[i] == 1
  {
    IntCol(seq(|f.index|, i requires 0 <= i < |f.index| =>
      if forall k :: 0 <= k < |helpers| ==> IsTrue(f.columns[helpers[k]], i) then 1 else 0))
  }

  /** The table the caller holds after `rule.apply(df)`, and what it raised. */
  function Evaluate(f: Frame, r: ThresholdRule): (e: Applied)
    requires f.Valid() && r.WellFormed()
    ensures e.frame.Valid() && e.frame.index == f.index
  {
    match CheckAll(f, r.requirements)
    case Some(fault) => Applied(f, Some(fault))
    case None => FlagAfter(RunDerivations(f, r.checks), r)
  }

  /** `df["fcN_flag"] = ...` and the `del` statements, once the helper
      columns are assigned; a raise in the assignments stops there. */
  function FlagAfter(run: Applied, r: ThresholdRule): (e: Applied)
    requires run.frame.Valid() && r.WellFormed()
    requires run.raised.None? ==> forall h :: h in r.Helpers() ==> h in run.frame.columns
    ensures e.frame.Valid() && e.frame.index == run.frame.index
    ensures e.raised == run.raised
  {
    if run.raised.Some? then run
    else
      var flagged := run.frame.Put(r.flag, FlagColumn(run.frame, r.Helpers()));
      if r.troubleshoot then Applied(flagged, None)
      else Applied(flagged.Drop(set h | h in r.Helpers()), None)
  }

  /** The success path: validation passed, every helper was assigned, and
      the flag column was computed from the helpers. */
  lemma {:induction false} EvaluateOk(f: Frame, r: ThresholdRule)
    requires f.Valid() && r.WellFormed()
    requires Evaluate(f, r).raised.None?
    ensures CheckAll(f, r.requirements).None?
    ensures var run := RunDerivations(f, r.checks);
      run.raised.None? && Evaluate(f, r) == FlagAfter(run, r) &&
      r.flag in Evaluate(f, r).frame.columns &&
      Evaluate(f, r).frame.columns[r.flag] == FlagColumn(run.frame, r.Helpers())
  {
  }

  /** `rule.apply(df)`: changes the caller's table in place. */
  method Apply(df: DataFrame, r: ThresholdRule) returns (raised: Option<Fault>)
    requires df.Valid() && r.WellFormed()
    modifies df
    ensures df.Valid()
    ensures Applied(df.Snapshot(), raised) == Evaluate(old(df.Snapshot()), r)
  {
    raised := CheckAll(df.Snapshot(), r.requirements);
    if raised.Some? {
      return;
    }
    raised := RunDerivationsInPlace(df, r.checks);
    if raised.Some? {
      return;
    }
    var helpers := r.Helpers();
    df.SetItem(r.flag, FlagColumn(df.Snapshot(), helpers));
    if !r.troubleshoot {
      df.DelItems(helpers);
    }
  }

  /** A failed column check raises before anything is assigned: the
      caller's table is untouched. */
  lemma {:induction false} ValidationFailureChangesNothing(f: Frame, r: ThresholdRule)
    requires f.Valid() && r.WellFormed()
    ensures CheckAll(f, r.requirements).Some? ==>
      Evaluate(f, r) == Applied(f, CheckAll(f, r.requirements))
    ensures Evaluate(f, r).raised.None? ==> CheckAll(f, r.requirements).None?
  {
  }

  /** A successful apply keeps the rows and every column the rule does not
      name, adds the flag column with values 0 and 1 only, and leaves the
      helper columns behind exactly when troubleshooting. */
  lemma {:induction false} EvaluateShape(f: Frame, r: ThresholdRule)
    requires f.Valid() && r.WellFormed()
    requires Evaluate(f, r).raised.None?
    ensures var g := Evaluate(f, r).frame;
      r.flag in g.columns && g.columns[r.flag].IntCol? &&
      (forall i :: 0 <= i < |g.columns[r.flag].ints| ==>
        g.columns[r.flag].ints[i] == 0 || g.columns[r.flag].ints[i] == 1)
    ensures var g := Evaluate(f, r).frame;
      forall n :: n in f.columns && n !in r.Helpers() && n != r.flag ==> n in g.columns && g.columns[n] == f.columns[n]
    ensures var g := Evaluate(f, r).frame;
      g.columns.Keys ==
        if r.troubleshoot then f.columns.Keys + (set h | h in r.Helpers()) + {r.flag}
        else f.columns.Keys - (set h | h in r.Helpers()) + {r.flag}
  {
    EvaluateOk(f, r);
    RunKeys(f, r.checks);
  }

  /** Whether it raises or not, apply leaves every column that is neither
      a helper nor the flag as it was: present exactly when it was, with
      the same values. */
  lemma {:induction false} EvaluateKeepsOthers(f: Frame, r: ThresholdRule, n: string)
    requires f.Valid() && r.WellFormed()
    requires n !in r.Helpers() && n != r.flag
    ensures var g := Evaluate(f, r).frame;
      (n in g.columns <==> n in f.columns) && (n in f.columns ==> g.columns[n] == f.columns[n])
  {
    if CheckAll(f, r.requirements).None? {
      var run := RunDerivations(f, r.checks);
      assert Evaluate(f, r) == FlagAfter(run, r);
    }
  }

  /** Row i of a helper column as evaluated on the original table: its
      comparison holds there, every column it reads being present. */
  predicate CheckHoldsAt(f: Frame, d: Derivation, i: nat)
    requires f.Valid() && i < |f.index|
  {
    d.Indicator? && d.test.Compare? &&
    FirstAbsent(f, TestRefs(d.test)).None? && HoldsAt(f, d.test, i)
  }

  lemma {:induction false} IndicatorColumn(f: Frame, d: Derivation, i: nat)
    requires f.Valid() && i < |f.index| && d.Indicator?
    requires Derive(f, d).Ok?
    ensures IsTrue(Derive(f, d).value, i) <==> CheckHoldsAt(f, d, i)
  {
  }

  /** When no check reads another check's helper column, the rule raises
      after validation exactly when some check cannot be evaluated on the
      original table (a missing column, a comparison with a str). */
  lemma {:induction false} EvaluateSucceedsIff(f: Frame, r: ThresholdRule)
    requires f.Valid() && r.WellFormed() && ReadsNoHelper(r.checks)
    requires CheckAll(f, r.requirements).None?
    ensures Evaluate(f, r).raised.None? <==>
      forall k :: 0 <= k < |r.checks| ==> Derive(f, r.checks[k]).Ok?
  {
    RunSucceedsIff(f, r.checks);
  }

  /** After a successful apply, every column a check reads was present. */
  lemma {:induction false} ReadColumnsPresent(f: Frame, r: ThresholdRule)
    requires f.Valid() && r.WellFormed() && ReadsNoHelper(r.checks)
    requires Evaluate(f, r).raised.None?
    ensures forall k, n :: 0 <= k < |r.checks| && n in DerivationRefs(r.checks[k]) ==> n in f.columns
  {
    EvaluateSucceedsIff(f, r);
    forall k, n | 0 <= k < |r.checks| && n in DerivationRefs(r.checks[k])
      ensures n in f.columns
    {
      assert Derive(f, r.checks[k]).Ok?;
    }
  }

  /** Every check of a rule holds in row i of the original table. */
  predicate AllChecksHold(f: Frame, ds: seq<Derivation>, i: nat)
    requires f.Valid() && i < |f.index|
  {
    forall k :: 0 <= k < |ds| ==> CheckHoldsAt(f, ds[k], i)
  }

  /** The flag of row i is 1 exactly when every check of the rule holds in
      row i of the original table; NaN on either side of a comparison
      makes it 0. */
  lemma {:induction false} FlagMeansAllChecks(f: Frame, r: ThresholdRule, i: nat)
    requires f.Valid() && r.WellFormed() && ReadsNoHelper(r.checks) && i < |f.index|
    requires Evaluate(f, r).raised.None?
    ensures var g := Evaluate(f, r).frame;
      r.flag in g.columns && g.columns[r.flag].IntCol? && i < |g.columns[r.flag].ints| &&
      (g.columns[r.flag].ints[i] == 1 <==> AllChecksHold(f, r.checks, i))
  {
    EvaluateOk(f, r);
    var run := RunDerivations(f, r.checks);
    RunReadsOnlyInputs(f, r.checks);
    var hs := r.Helpers();
    var flag := FlagColumn(run.frame, hs);
    forall k | 0 <= k < |r.checks|
      ensures IsTrue(run.frame.columns[hs[k]], i) <==> CheckHoldsAt(f, r.checks[k], i)
    {
      IndicatorColumn(f, r.checks[k], i);
    }
  }

  /** FlagMeansAllChecks for a rule of two checks, each read off on its own. */
  lemma {:induction false} TwoChecksFlag(f: Frame, r: ThresholdRule, i: nat)
    requires f.Valid() && r.WellFormed() && ReadsNoHelper(r.checks) && i < |f.index| && |r.checks| == 2
    requires Evaluate(f, r).raised.None?
    ensures var g := Evaluate(f, r).frame;
      r.flag in g.columns && g.columns[r.flag].IntCol? && i < |g.columns[r.flag].ints| &&
      (g.columns[r.flag].ints[i] == 1 <==> CheckHoldsAt(f, r.checks[0], i) && CheckHoldsAt(f, r.checks[1], i))
  {
    FlagMeansAllChecks(f, r, i);
    AllOfTwo(f, r.checks, i);
  }

  lemma {:induction false} AllOfTwo(f: Frame, ds: seq<Derivation>, i: nat)
    requires f.Valid() && i < |f.index| && |ds| == 2
    ensures AllChecksHold(f, ds, i) <==> CheckHoldsAt(f, ds[0], i) && CheckHoldsAt(f, ds[1], i)
  {
    if CheckHoldsAt(f, ds[0], i) && CheckHoldsAt(f, ds[1], i) {
      forall k | 0 <= k < 2
        ensures CheckHoldsAt(f, ds[k], i)
      {
        if k == 1 {}
      }
    }
  }

  /** FlagMeansAllChecks for a rule of three checks. */
  lemma {:induction false} ThreeChecksFlag(f: Frame, r: ThresholdRule, i: nat)
    requires f.Valid() && r.WellFormed() && ReadsNoHelper(r.checks) && i < |f.index| && |r.checks| == 3
    requires Evaluate(f, r).raised.None?
    ensures var g := Evaluate(f, r).frame;
      r.flag in g.columns && g.columns[r.flag].IntCol? && i < |g.columns[r.flag].ints| &&
      (g.columns[r.flag].ints[i] == 1 <==>
        CheckHoldsAt(f, r.checks[0], i) && CheckHoldsAt(f, r.checks[1], i) && CheckHoldsAt(f, r.checks[2], i))
  {
    FlagMeansAllChecks(f, r, i);
    AllOfThree(f, r.checks, i);
  }

  lemma {:induction false} AllOfThree(f: Frame, ds: seq<Derivation>, i: nat)
    requires f.Valid() && i < |f.index| && |ds| == 3
    ensures AllChecksHold(f, ds, i) <==>
      CheckHoldsAt(f, ds[0], i) && CheckHoldsAt(f, ds[1], i) && CheckHoldsAt(f, ds[2], i)
  {
    if CheckHoldsAt(f, ds[0], i) && CheckHoldsAt(f, ds[1], i) && CheckHoldsAt(f, ds[2], i) {
      forall k | 0 <= k < 3
        ensures CheckHoldsAt(f, ds[k], i)
      {
        if k == 1 {} else if k == 2 {}
      }
    }
  }
}
