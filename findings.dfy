/** Four places where the rules as written cannot do what their names and
    docstrings say, each next to the corrected rule the rest of the model
    uses. */
module Findings {
  import opened Tables
  import opened Validation
  import opened Expressions
  import opened FaultConditions
  import ThresholdRules
  import CyclingRules

  // -----------------------------------------------------------------------
  // FaultConditionOne

  /** As written, every call raises AttributeError before touching the
      table: the check loop reads `self.pump_vfd_speed_col`, which
      `__init__` never assigns. */
  lemma {:induction false} OneAsWrittenAlwaysRaises(f: Frame, fc: FaultCondition)
    requires f.Valid() && fc.FaultConditionOne?
    ensures ThresholdRules.Evaluate(f, AsWrittenOne(fc)) == Applied(f, Some(AttributeError(PUMP_VFD_SPEED_COL)))
  {
  }

  /** Corrected, the rule checks the pump status column it reads: it
      raises during validation exactly when that column is missing, not
      int-typed, or holds a value above 1. */
  lemma {:induction false} OneValidatesStatus(f: Frame, fc: FaultCondition)
    requires f.Valid() && fc.FaultConditionOne?
    ensures var col := fc.pumpStatusBoolCol;
      CheckAll(f, ThresholdPlan(fc).requirements).None? <==>
        col in f.columns && f.columns[col].IntCol? &&
        forall i :: 0 <= i < |f.columns[col].ints| ==> f.columns[col].ints[i] <= 1
  {
    BinaryStatusVerdict(f, fc.pumpStatusBoolCol);
  }

  // -----------------------------------------------------------------------
  // FaultConditionSix

  /** As written, every call raises: a column check fails, the supply
      temperature column is missing, or the first helper orders the supply
      temperature against the setpoint column's name and raises before any
      column is assigned. The table is
      left as it was, and no `fc6_flag` is ever produced. */
  lemma {:induction false} SixAsWrittenAlwaysRaises(f: Frame, fc: FaultCondition)
    requires f.Valid() && fc.FaultConditionSix?
    ensures var e := ThresholdRules.Evaluate(f, AsWrittenSix(fc));
      e.frame == f && e.raised.Some?
    ensures CheckAll(f, AsWrittenSix(fc).requirements).None? && fc.hotWaterSupplyTempCol in f.columns ==>
      ThresholdRules.Evaluate(f, AsWrittenSix(fc)).raised == Some(InvalidComparison(fc.hotWaterSupplyTempSptCol))
  {
    var r := AsWrittenSix(fc);
    if CheckAll(f, r.requirements).None? {
      TestsRead(fc.hotWaterSupplyTempCol, fc.hotWaterSupplyTempSptCol, fc.hotWaterSupplyTempSptCol,
                fc.hotWaterTempErrThres, fc.hotWaterTempErrThres);
      var d := r.checks[0];
      if fc.hotWaterSupplyTempCol in f.columns {
        assert Derive(f, d) == Err(InvalidComparison(fc.hotWaterSupplyTempSptCol));
      } else {
        assert Derive(f, d) == Err(KeyError(fc.hotWaterSupplyTempCol));
      }
      assert r.checks[..1] == [d];
      RunSingle(f, r.checks[..1]);
      RaisedPersists(f, r.checks, 1);
    }
  }

  // -----------------------------------------------------------------------
  // FaultConditionNine, Ten and Eleven

  /** As written, the class FaultConditionNine takes the arguments of
      FaultConditionEleven and behaves as it: the boiler-versus-header rule
      with the `fc11_flag` column. */
  lemma {:induction false} NineAsWrittenIsEleven(thres: real, flowCol: string, enterCol: string,
                                                 returnCol: string, statusCol: string, ts: bool)
    ensures NineAsWritten(thres, flowCol, enterCol, returnCol, statusCol, ts) ==
      ThresholdPlan(FaultConditionEleven(thres, flowCol, enterCol, returnCol, statusCol, ts))
    ensures NineAsWritten(thres, flowCol, enterCol, returnCol, statusCol, ts).flag == "fc11_flag"
  {
  }

  /** So a table run through the class as written never gains an
      `fc9_flag` column: the return-too-cold check is unreachable. */
  lemma {:induction false} NineAsWrittenNeverFlagsNine(f: Frame, thres: real, flowCol: string, enterCol: string,
                                                       returnCol: string, statusCol: string, ts: bool)
    requires f.Valid()
    ensures var g := ThresholdRules.Evaluate(f, NineAsWritten(thres, flowCol, enterCol, returnCol, statusCol, ts)).frame;
      "fc9_flag" in g.columns ==> "fc9_flag" in f.columns && g.columns["fc9_flag"] == f.columns["fc9_flag"]
  {
    var r := NineAsWritten(thres, flowCol, enterCol, returnCol, statusCol, ts);
    ThresholdRules.EvaluateKeepsOthers(f, r, "fc9_flag");
  }

  /** Corrected, FaultConditionNine is its own rule: the flag column it
      adds is `fc9_flag`, computed from the return-too-cold checks. */
  lemma {:induction false} NineFlagsNine(f: Frame, fc: FaultCondition)
    requires f.Valid() && fc.FaultConditionNine?
    requires ThresholdRules.Evaluate(f, ThresholdPlan(fc)).raised.None?
    ensures "fc9_flag" in ThresholdRules.Evaluate(f, ThresholdPlan(fc)).frame.columns
    ensures ThresholdPlan(fc).checks[0].test ==
      Compare(Lt, Plus(Col(fc.hotWaterReturnTempCol), Num(fc.hotWaterTempErrThres)), Num(fc.boilerCondensingTemp))
  {
    ThresholdRules.EvaluateShape(f, ThresholdPlan(fc));
  }

  // -----------------------------------------------------------------------
  // FaultConditionFourteen

  /** As written, the stage change of row 0 is NaN (`.diff()` has no row
      before it, and `.dropna()` only drops it from a copy that is aligned
      back on assignment), so `astype(int)` raises on any table with a row
      that passes the column check. */
  lemma {:induction false} FourteenAsWrittenFailsCast(f: Frame, fc: FaultCondition)
    requires f.Valid() && fc.FaultConditionFourteen? && f.index != []
    requires CheckAll(f, AsWrittenFourteen(fc).requirements).None?
    ensures var c := CyclingRules.Evaluate(f, AsWrittenFourteen(fc));
      BOILER_STAGE_CHANGE in c.caller.columns && c.caller.columns[BOILER_STAGE_CHANGE].Cell(0).None? &&
      c.returned == Err(IntCastingNaN)
  {
    var r := AsWrittenFourteen(fc);
    var stage := fc.boilerStageIntCol;
    IntegerTypedVerdict(f, stage);
    TestsRead(stage, stage, stage, 0.0, 0.0);
    var t := StageChangeAsWritten(stage);
    RunSingle(f, r.modes);
    var col := TermColumn(f, t);
    assert col.reals[0] == At(f, t, 0) == None;
    var run := RunDerivations(f, r.modes);
    assert run == Applied(f.Put(BOILER_STAGE_CHANGE, col), None);
    assert CyclingRules.HasMissing(run.frame.columns[BOILER_STAGE_CHANGE]);
  }

  /** Corrected, the stage change of row 0 is 0 and that of every later
      row is the size of the step from the row before. */
  lemma {:induction false} StageChangeAt(f: Frame, stageCol: string, i: nat)
    requires f.Valid() && stageCol in f.columns && f.columns[stageCol].IntCol? && i < |f.index|
    ensures Refs(StageChange(stageCol)) == [stageCol, stageCol]
    ensures var xs := f.columns[stageCol].ints;
      At(f, StageChange(stageCol), i) ==
        Some(if i == 0 then 0.0 else Abs((xs[i] - xs[i - 1]) as real))
  {
    TestsRead(stageCol, stageCol, stageCol, 0.0, 0.0);
    var xs := f.columns[stageCol].ints;
    var lag := Lag(Col(stageCol));
    var step := Minus(Col(stageCol), lag);
    assert At(f, Col(stageCol), i) == Some(xs[i] as real);
    if i > 0 {
      assert At(f, Col(stageCol), i - 1) == Some(xs[i - 1] as real);
      assert At(f, lag, i) == Some(xs[i - 1] as real);
      assert At(f, step, i) == Some((xs[i] - xs[i - 1]) as real);
      assert At(f, Magnitude(step), i) == Some(Abs((xs[i] - xs[i - 1]) as real));
    } else {
      assert At(f, lag, i) == None;
      assert At(f, step, i) == None;
      assert At(f, Magnitude(step), i) == None;
    }
  }

  /** Corrected, the stage-change column never holds NaN, so the cast can
      only fail on a NaN the caller's own table holds. */
  lemma {:induction false} FourteenCastSucceeds(f: Frame, fc: FaultCondition)
    requires f.Valid() && fc.FaultConditionFourteen?
    requires CheckAll(f, CyclingPlan(fc).requirements).None?
    requires forall n :: n in f.columns ==> !CyclingRules.HasMissing(f.columns[n])
    ensures CyclingRules.Evaluate(f, CyclingPlan(fc)).returned.Ok?
  {
    var r := CyclingPlan(fc);
    var stage := fc.boilerStageIntCol;
    IntegerTypedVerdict(f, stage);
    TestsRead(stage, stage, stage, 0.0, 0.0);
    var t := StageChange(stage);
    RunSingle(f, r.modes);
    var col := TermColumn(f, t);
    forall i | 0 <= i < |col.reals|
      ensures col.reals[i].Some?
    {
      StageChangeAt(f, stage, i);
    }
    var run := RunDerivations(f, r.modes);
    assert run == Applied(f.Put(BOILER_STAGE_CHANGE, col), None);
    assert forall n :: n in run.frame.columns ==> !CyclingRules.HasMissing(run.frame.columns[n]);
  }
}
