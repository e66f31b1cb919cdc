/** The fourteen fault conditions of the hot-water plant: each class's
    configuration, the plan its `apply` follows, and what its flag means
    row by row (or hour by hour). */
module FaultConditions {
  import opened Tables
  import opened Validation
  import opened Expressions
  import ThresholdRules
  import CyclingRules

  /** The `__init__` arguments of each class. */
  datatype FaultCondition =
    | FaultConditionOne(pumpDiffPressErrThres: real, pumpDiffPressCol: string,
                        pumpStatusBoolCol: string, pumpDiffPressSetpointCol: string, troubleshoot: bool)
    | FaultConditionTwo(flowMeterErrThres: real, flowMeterCol: string,
                        pumpStatusBoolCol: string, troubleshoot: bool)
    | FaultConditionThree(flowMeterErrThres: real, flowMeterCol: string,
                          pumpStatusBoolCol: string, troubleshoot: bool)
    | FaultConditionFour(vfdSpeedPercentErrThres: real, vfdSpeedPercentMax: real,
                         pumpDiffPressErrThres: real, pumpDiffPressCol: string,
                         pumpVfdSpeedCol: string, pumpDiffPressSetpointCol: string, troubleshoot: bool)
    | FaultConditionFive(flowMeterErrThres: real, hotWaterMinFlowStp: real,
                         hotWaterBypassVlvErrThres: real, flowMeterCol: string,
                         hotWaterBypassVlvCmdCol: string, pumpStatusBoolCol: string, troubleshoot: bool)
    | FaultConditionSix(hotWaterTempErrThres: real, hotWaterSupplyTempCol: string,
                        hotWaterSupplyTempSptCol: string, pumpStatusBoolCol: string, troubleshoot: bool)
    | FaultConditionSeven(expansionTankPressStp: real, hotWaterSysGaugePresCol: string,
                          pumpStatusBoolCol: string, troubleshoot: bool)
    | FaultConditionEight(hotWaterTempErrThres: real, boilerCondensingTemp: real,
                          hotWaterReturnTempCol: string, pumpStatusBoolCol: string, troubleshoot: bool)
    | FaultConditionNine(hotWaterTempErrThres: real, boilerCondensingTemp: real,
                         hotWaterReturnTempCol: string, pumpStatusBoolCol: string, troubleshoot: bool)
    | FaultConditionTen(hotWaterTempErrThres: real, flowMeterCol: string, boilerLeavingTempCol: string,
                        hotWaterSupplyTempCol: string, boilerStatusBoolCol: string, troubleshoot: bool)
    | FaultConditionEleven(hotWaterTempErrThres: real, flowMeterCol: string, boilerEnterTempCol: string,
                           hotWaterReturnTempCol: string, boilerStatusBoolCol: string, troubleshoot: bool)
    | FaultConditionTwelve(plantOsMax: int, pumpVfdSpeedCol: string, troubleshoot: bool)
    | FaultConditionThirteen(boilerOsMax: int, boilerStatusBoolCol: string, troubleshoot: bool)
    | FaultConditionFourteen(boilerStageOsMax: int, boilerStageIntCol: string, troubleshoot: bool)
  {
    predicate IsCycling() {
      FaultConditionTwelve? || FaultConditionThirteen? || FaultConditionFourteen?
    }
  }

  // Helper and flag column names.
  const PUMP_DIFF_PRESS_CHECK := "pump_diff_press_check"
  const PUMP_CHECK := "pump_check"
  const FLOW_METER_CHECK := "flow_meter_check"
  const FLOWMETER_CHECK := "flowmeter_check"
  const BYPASS_VLV_CHECK := "bypass_vlv_check"
  const HW_SPT_CHECK := "hw_spt_check"
  const HW_SYS_STATIC_PRESS_CHECK := "hw_sys_static_press_check"
  const BOILER_CONDENSING_CHECK := "boiler_condensing_check"
  const BOILER_VS_HEADER_CHECK := "boiler_vs_header_check"
  const BOILER_CHECK := "boiler_check"
  const LOOP_PUMPS_ON_MODE := "loop_pumps_on_mode"
  const LOOP_PUMPS_OFF_MODE := "loop_pumps_off_mode"
  const BOILER_ON_MODE := "boiler_on_mode"
  const BOILER_OFF_MODE := "boiler_off_mode"
  const BOILER_STAGE_CHANGE := "boiler_stage_change"

  /** The attribute FaultConditionOne's check loop reads. */
  const PUMP_VFD_SPEED_COL := "pump_vfd_speed_col"

  // -----------------------------------------------------------------------
  // The predicates, one helper column each

  /** df[dp] < df[spt] - thres */
  function DiffPressLow(dpCol: string, sptCol: string, thres: real): Test {
    Compare(Lt, Col(dpCol), Minus(Col(sptCol), Num(thres)))
  }

  /** df[status] == v */
  function StatusIs(statusCol: string, v: real): Test {
    Compare(Eq, Col(statusCol), Num(v))
  }

  /** abs((df[flow] * df[temp]) / df[flow] - df[header]) > thres */
  function HeaderMismatch(flowCol: string, tempCol: string, headerCol: string, thres: real): Test {
    Compare(Gt, Magnitude(Minus(Quotient(Times(Col(flowCol), Col(tempCol)), Col(flowCol)), Col(headerCol))), Num(thres))
  }

  /** fc6's first helper as written: the supply temperature plus the
      threshold ordered against the setpoint column's NAME. */
  function SupplyBelowSetpointAsWritten(supplyCol: string, sptCol: string, thres: real): Test {
    CompareText(Lt, Plus(Col(supplyCol), Num(thres)), sptCol)
  }

  /** fc6's first helper against the setpoint column's values. */
  function SupplyBelowSetpoint(supplyCol: string, sptCol: string, thres: real): Test {
    Compare(Lt, Plus(Col(supplyCol), Num(thres)), Col(sptCol))
  }

  /** abs(df[stage].diff()): NaN in row 0. */
  function StageChangeAsWritten(stageCol: string): Term {
    Magnitude(Minus(Col(stageCol), Lag(Col(stageCol))))
  }

  /** The stage change with row 0 counted as no change. */
  function StageChange(stageCol: string): Term {
    FillMissing(StageChangeAsWritten(stageCol), 0.0)
  }

  // -----------------------------------------------------------------------
  // Plans

  /** fc1: the differential pressure is below its setpoint by more than
      the threshold while the pump status is 0. */
  function DiffPressWithPumpOff(thres: real, dpCol: string, statusCol: string, sptCol: string, ts: bool): (r: ThresholdRules.ThresholdRule)
    ensures r.WellFormed()
  {
    ThresholdRules.ThresholdRule([BinaryStatus(statusCol)],
      [Indicator(PUMP_DIFF_PRESS_CHECK, DiffPressLow(dpCol, sptCol, thres)),
       Indicator(PUMP_CHECK, StatusIs(statusCol, 0.0))], "fc1_flag", ts)
  }

  /** fc2 and fc3: flow above the threshold while the pump status is 0. */
  function FlowWithPumpOff(flag: string, thres: real, flowCol: string, statusCol: string, ts: bool): (r: ThresholdRules.ThresholdRule)
    requires flag != FLOW_METER_CHECK && flag != PUMP_CHECK
    ensures r.WellFormed()
  {
    ThresholdRules.ThresholdRule([BinaryStatus(statusCol)],
      [Indicator(FLOW_METER_CHECK, Compare(Gt, Col(flowCol), Num(thres))),
       Indicator(PUMP_CHECK, StatusIs(statusCol, 0.0))], flag, ts)
  }

  /** fc4: the pressure is low while the pump runs near full speed. */
  function DiffPressAtFullSpeed(speedErr: real, speedMax: real, dpThres: real, dpCol: string,
                                speedCol: string, sptCol: string, ts: bool): (r: ThresholdRules.ThresholdRule)
    ensures r.WellFormed()
  {
    ThresholdRules.ThresholdRule([FractionalPercentage(speedCol)],
      [Indicator(PUMP_DIFF_PRESS_CHECK, DiffPressLow(dpCol, sptCol, dpThres)),
       Indicator(PUMP_CHECK, Compare(Ge, Col(speedCol), Num(speedMax - speedErr)))], "fc4_flag", ts)
  }

  /** fc5: low flow with the bypass valve open while the pump runs. */
  function LowFlowBypassOpen(flowErr: real, minFlow: real, bypassErr: real, flowCol: string,
                             bypassCol: string, statusCol: string, ts: bool): (r: ThresholdRules.ThresholdRule)
    ensures r.WellFormed()
  {
    ThresholdRules.ThresholdRule([BinaryStatus(statusCol), FractionalPercentage(bypassCol)],
      [Indicator(FLOWMETER_CHECK, Compare(Lt, Col(flowCol), Num(minFlow - flowErr))),
       Indicator(BYPASS_VLV_CHECK, Compare(Ge, Col(bypassCol), Num(0.99 - bypassErr))),
       Indicator(PUMP_CHECK, StatusIs(statusCol, 1.0))], "fc5_flag", ts)
  }

  /** fc6: the supply temperature plus the threshold is below the setpoint
      while the pump runs. */
  function SupplyBelowSetpointPumpOn(thres: real, supplyCol: string, sptCol: string, statusCol: string, ts: bool): (r: ThresholdRules.ThresholdRule)
    ensures r.WellFormed()
  {
    ThresholdRules.ThresholdRule([BinaryStatus(statusCol)],
      [Indicator(HW_SPT_CHECK, SupplyBelowSetpoint(supplyCol, sptCol, thres)),
       Indicator(PUMP_CHECK, StatusIs(statusCol, 1.0))], "fc6_flag", ts)
  }

  /** fc7: the gauge pressure is below 90% of the expansion tank setpoint
      while the pump runs. */
  function LowGaugePressure(stp: real, gaugeCol: string, statusCol: string, ts: bool): (r: ThresholdRules.ThresholdRule)
    ensures r.WellFormed()
  {
    ThresholdRules.ThresholdRule([BinaryStatus(statusCol)],
      [Indicator(HW_SYS_STATIC_PRESS_CHECK, Compare(Lt, Col(gaugeCol), Num(stp * 0.9))),
       Indicator(PUMP_CHECK, StatusIs(statusCol, 1.0))], "fc7_flag", ts)
  }

  /** fc8: the return temperature minus the threshold is above the
      condensing temperature while the pump runs. */
  function ReturnTooHot(thres: real, condensing: real, returnCol: string, statusCol: string, ts: bool): (r: ThresholdRules.ThresholdRule)
    ensures r.WellFormed()
  {
    ThresholdRules.ThresholdRule([BinaryStatus(statusCol)],
      [Indicator(BOILER_CONDENSING_CHECK, Compare(Gt, Minus(Col(returnCol), Num(thres)), Num(condensing))),
       Indicator(PUMP_CHECK, StatusIs(statusCol, 1.0))], "fc8_flag", ts)
  }

  /** fc9: the return temperature plus the threshold is below the
      condensing temperature while the pump runs. */
  function ReturnTooCold(thres: real, condensing: real, returnCol: string, statusCol: string, ts: bool): (r: ThresholdRules.ThresholdRule)
    ensures r.WellFormed()
  {
    ThresholdRules.ThresholdRule([BinaryStatus(statusCol)],
      [Indicator(BOILER_CONDENSING_CHECK, Compare(Lt, Plus(Col(returnCol), Num(thres)), Num(condensing))),
       Indicator(PUMP_CHECK, StatusIs(statusCol, 1.0))], "fc9_flag", ts)
  }

  /** fc10 and fc11: the flow-weighted boiler temperature differs from the
      header temperature by more than the threshold while the boiler runs. */
  function HeaderTempMismatch(flag: string, thres: real, flowCol: string, tempCol: string,
                              headerCol: string, statusCol: string, ts: bool): (r: ThresholdRules.ThresholdRule)
    requires flag != BOILER_VS_HEADER_CHECK && flag != BOILER_CHECK
    ensures r.WellFormed()
  {
    ThresholdRules.ThresholdRule([BinaryStatus(statusCol)],
      [Indicator(BOILER_VS_HEADER_CHECK, HeaderMismatch(flowCol, tempCol, headerCol, thres)),
       Indicator(BOILER_CHECK, StatusIs(statusCol, 1.0))], flag, ts)
  }

  /** The threshold rule each of FaultConditionOne to FaultConditionEleven
      follows. FaultConditionOne checks the pump status column it reads,
      FaultConditionSix compares with the setpoint column, and Nine, Ten
      and Eleven are three rules; the code as written differs in each of
      these (AsWrittenOne, AsWrittenSix, NineAsWritten). */
  function ThresholdPlan(fc: FaultCondition): (r: ThresholdRules.ThresholdRule)
    requires !fc.IsCycling()
    ensures r.WellFormed() && r.troubleshoot == fc.troubleshoot
  {
    match fc
    case FaultConditionOne(thres, dpCol, statusCol, sptCol, ts) =>
      DiffPressWithPumpOff(thres, dpCol, statusCol, sptCol, ts)
    case FaultConditionTwo(thres, flowCol, statusCol, ts) =>
      FlowWithPumpOff("fc2_flag", thres, flowCol, statusCol, ts)
    case FaultConditionThree(thres, flowCol, statusCol, ts) =>
      FlowWithPumpOff("fc3_flag", thres, flowCol, statusCol, ts)
    case FaultConditionFour(speedErr, speedMax, dpThres, dpCol, speedCol, sptCol, ts) =>
      DiffPressAtFullSpeed(speedErr, speedMax, dpThres, dpCol, speedCol, sptCol, ts)
    case FaultConditionFive(flowErr, minFlow, bypassErr, flowCol, bypassCol, statusCol, ts) =>
      LowFlowBypassOpen(flowErr, minFlow, bypassErr, flowCol, bypassCol, statusCol, ts)
    case FaultConditionSix(thres, supplyCol, sptCol, statusCol, ts) =>
      SupplyBelowSetpointPumpOn(thres, supplyCol, sptCol, statusCol, ts)
    case FaultConditionSeven(stp, gaugeCol, statusCol, ts) =>
      LowGaugePressure(stp, gaugeCol, statusCol, ts)
    case FaultConditionEight(thres, condensing, returnCol, statusCol, ts) =>
      ReturnTooHot(thres, condensing, returnCol, statusCol, ts)
    case FaultConditionNine(thres, condensing, returnCol, statusCol, ts) =>
      ReturnTooCold(thres, condensing, returnCol, statusCol, ts)
    case FaultConditionTen(thres, flowCol, leavingCol, supplyCol, statusCol, ts) =>
      HeaderTempMismatch("fc10_flag", thres, flowCol, leavingCol, supplyCol, statusCol, ts)
    case FaultConditionEleven(thres, flowCol, enterCol, returnCol, statusCol, ts) =>
      HeaderTempMismatch("fc11_flag", thres, flowCol, enterCol, returnCol, statusCol, ts)
  }

  /** The cycling rule each of FaultConditionTwelve to FaultConditionFourteen
      follows; FaultConditionFourteen counts row 0 as no stage change, where
      the code as written leaves NaN (AsWrittenFourteen). */
  function CyclingPlan(fc: FaultCondition): (r: CyclingRules.CyclingRule)
    requires fc.IsCycling()
    ensures r.WellFormed() && r.troubleshoot == fc.troubleshoot
  {
    match fc
    case FaultConditionTwelve(osMax, speedCol, ts) =>
      CyclingRules.CyclingRule([FractionalPercentage(speedCol)],
        [Indicator(LOOP_PUMPS_ON_MODE, Compare(Gt, Col(speedCol), Num(0.01))),
         Indicator(LOOP_PUMPS_OFF_MODE, Compare(Eq, Col(speedCol), Num(0.0)))], osMax, "fc12_flag", ts)
    case FaultConditionThirteen(osMax, statusCol, ts) =>
      CyclingRules.CyclingRule([BinaryStatus(statusCol)],
        [Indicator(BOILER_ON_MODE, StatusIs(statusCol, 1.0)),
         Indicator(BOILER_OFF_MODE, StatusIs(statusCol, 0.0))], osMax, "fc13_flag", ts)
    case FaultConditionFourteen(osMax, stageCol, ts) =>
      CyclingRules.CyclingRule([IntegerTyped(stageCol)],
        [Measure(BOILER_STAGE_CHANGE, StageChange(stageCol))], osMax, "fc14_flag", ts)
  }

  /** FaultConditionOne as written: its check loop reads
      `self.pump_vfd_speed_col`, which `__init__` never assigns. */
  function AsWrittenOne(fc: FaultCondition): (r: ThresholdRules.ThresholdRule)
    requires fc.FaultConditionOne?
    ensures r.WellFormed()
  {
    ThresholdRules.ThresholdRule([UnsetAttribute(PUMP_VFD_SPEED_COL)],
      ThresholdPlan(fc).checks, "fc1_flag", fc.troubleshoot)
  }

  /** FaultConditionSix as written: it orders a numeric column against a str. */
  function AsWrittenSix(fc: FaultCondition): (r: ThresholdRules.ThresholdRule)
    requires fc.FaultConditionSix?
    ensures r.WellFormed()
  {
    ThresholdRules.ThresholdRule([BinaryStatus(fc.pumpStatusBoolCol)],
      [Indicator(HW_SPT_CHECK, SupplyBelowSetpointAsWritten(fc.hotWaterSupplyTempCol, fc.hotWaterSupplyTempSptCol, fc.hotWaterTempErrThres)),
       Indicator(PUMP_CHECK, StatusIs(fc.pumpStatusBoolCol, 1.0))], "fc6_flag", fc.troubleshoot)
  }

  /** The class named FaultConditionNine as written: the classes
      FaultConditionTen and FaultConditionEleven are nested in it with
      nothing but a docstring, so the `__init__` and `apply` that follow
      each of them are FaultConditionNine's methods, and the last ones,
      written for the boiler entering temperature, win. */
  function NineAsWritten(hotWaterTempErrThres: real, flowMeterCol: string, boilerEnterTempCol: string,
                         hotWaterReturnTempCol: string, boilerStatusBoolCol: string, troubleshoot: bool): (r: ThresholdRules.ThresholdRule)
    ensures r.WellFormed()
  {
    ThresholdRules.ThresholdRule([BinaryStatus(boilerStatusBoolCol)],
      [Indicator(BOILER_VS_HEADER_CHECK, HeaderMismatch(flowMeterCol, boilerEnterTempCol, hotWaterReturnTempCol, hotWaterTempErrThres)),
       Indicator(BOILER_CHECK, StatusIs(boilerStatusBoolCol, 1.0))], "fc11_flag", troubleshoot)
  }

  /** FaultConditionFourteen as written: the stage change keeps NaN in row 0. */
  function AsWrittenFourteen(fc: FaultCondition): (r: CyclingRules.CyclingRule)
    requires fc.FaultConditionFourteen?
    ensures r.WellFormed()
  {
    CyclingRules.CyclingRule([IntegerTyped(fc.boilerStageIntCol)],
      [Measure(BOILER_STAGE_CHANGE, StageChangeAsWritten(fc.boilerStageIntCol))],
      fc.boilerStageOsMax, "fc14_flag", fc.troubleshoot)
  }

  // -----------------------------------------------------------------------
  // Row meaning of the threshold flags

  /** Row i of a column read as a number (None for NaN). */
  function Value(f: Frame, col: string, i: nat): Option<real>
    requires f.Valid() && col in f.columns && i < |f.index|
  {
    f.columns[col].Cell(i)
  }

  /** df[col] > v, df[col] < v, df[col] >= v, df[col] == v in row i of a
      table that has the column. */
  lemma {:induction false} ColumnVersusNumber(f: Frame, h: string, op: Op, col: string, v: real, i: nat)
    requires f.Valid() && i < |f.index|
    ensures ThresholdRules.CheckHoldsAt(f, Indicator(h, Compare(op, Col(col), Num(v))), i) <==>
      col in f.columns && Holds(op, Value(f, col, i), Some(v))
  {
  }

  /** The columns each predicate reads, in order. */
  lemma {:induction false} TestsRead(a: string, b: string, c: string, x: real, y: real)
    ensures TestRefs(DiffPressLow(a, b, x)) == [a, b]
    ensures TestRefs(SupplyBelowSetpoint(a, b, x)) == [a, b]
    ensures TestRefs(Compare(Gt, Minus(Col(a), Num(x)), Num(y))) == [a]
    ensures TestRefs(Compare(Lt, Plus(Col(a), Num(x)), Num(y))) == [a]
    ensures TestRefs(HeaderMismatch(a, b, c, x)) == [a, b, a, c]
    ensures TestRefs(SupplyBelowSetpointAsWritten(a, b, x)) == [a]
    ensures Refs(StageChangeAsWritten(a)) == [a, a] && Refs(StageChange(a)) == [a, a]
  {
    assert Refs(Lag(Col(a))) == [a];
    assert Refs(Minus(Col(a), Lag(Col(a)))) == [a, a];
    assert Refs(Col(a)) == [a] && Refs(Col(b)) == [b] && Refs(Col(c)) == [c];
    assert Refs(Num(x)) == [] && Refs(Num(y)) == [];
    assert Refs(Times(Col(a), Col(b))) == [a, b];
    assert Refs(Quotient(Times(Col(a), Col(b)), Col(a))) == [a, b, a];
    assert Refs(Minus(Quotient(Times(Col(a), Col(b)), Col(a)), Col(c))) == [a, b, a, c];
  }

  /** df[dp] < df[spt] - thres in row i. */
  lemma {:induction false} DiffPressLowAt(f: Frame, h: string, dpCol: string, sptCol: string, thres: real, i: nat)
    requires f.Valid() && i < |f.index| && dpCol in f.columns && sptCol in f.columns
    ensures ThresholdRules.CheckHoldsAt(f, Indicator(h, DiffPressLow(dpCol, sptCol, thres)), i) <==>
      var dp, spt := Value(f, dpCol, i), Value(f, sptCol, i);
      dp.Some? && spt.Some? && dp.value < spt.value - thres
  {
    var test := DiffPressLow(dpCol, sptCol, thres);
    TestsRead(dpCol, sptCol, sptCol, thres, thres);
    var spt := Value(f, sptCol, i);
    assert At(f, test.right, i) == if spt.Some? then Some(spt.value - thres) else None;
  }

  /** df[supply] + thres < df[spt] in row i. */
  lemma {:induction false} SupplyBelowSetpointAt(f: Frame, h: string, supplyCol: string, sptCol: string, thres: real, i: nat)
    requires f.Valid() && i < |f.index| && supplyCol in f.columns && sptCol in f.columns
    ensures ThresholdRules.CheckHoldsAt(f, Indicator(h, SupplyBelowSetpoint(supplyCol, sptCol, thres)), i) <==>
      var supply, spt := Value(f, supplyCol, i), Value(f, sptCol, i);
      supply.Some? && spt.Some? && supply.value + thres < spt.value
  {
    var test := SupplyBelowSetpoint(supplyCol, sptCol, thres);
    TestsRead(supplyCol, sptCol, sptCol, thres, thres);
    var supply := Value(f, supplyCol, i);
    assert At(f, test.left, i) == if supply.Some? then Some(supply.value + thres) else None;
  }

  /** df[col] - thres > v and df[col] + thres < v in row i. */
  lemma {:induction false} OffsetVersusNumber(f: Frame, h: string, col: string, thres: real, v: real, i: nat)
    requires f.Valid() && i < |f.index| && col in f.columns
    ensures ThresholdRules.CheckHoldsAt(f, Indicator(h, Compare(Gt, Minus(Col(col), Num(thres)), Num(v))), i) <==>
      Value(f, col, i).Some? && Value(f, col, i).value - thres > v
    ensures ThresholdRules.CheckHoldsAt(f, Indicator(h, Compare(Lt, Plus(Col(col), Num(thres)), Num(v))), i) <==>
      Value(f, col, i).Some? && Value(f, col, i).value + thres < v
  {
    var x := Value(f, col, i);
    TestsRead(col, col, col, thres, v);
    assert At(f, Minus(Col(col), Num(thres)), i) == if x.Some? then Some(x.value - thres) else None;
    assert At(f, Plus(Col(col), Num(thres)), i) == if x.Some? then Some(x.value + thres) else None;
  }

  lemma {:induction false} RatioOfProduct(x: real, y: real)
    requires x != 0.0
    ensures Ratio(Product(x, y), x) == y
  {
  }

  /** abs((df[flow] * df[t]) / df[flow] - df[header]) > thres in row i: the
      flow cancels out where it is nonzero, and a zero flow gives NaN. */
  lemma {:induction false} HeaderMismatchAt(f: Frame, h: string, flowCol: string, tempCol: string, headerCol: string, thres: real, i: nat)
    requires f.Valid() && i < |f.index| && flowCol in f.columns && tempCol in f.columns && headerCol in f.columns
    ensures ThresholdRules.CheckHoldsAt(f, Indicator(h, HeaderMismatch(flowCol, tempCol, headerCol, thres)), i) <==>
      var flow, t, header := Value(f, flowCol, i), Value(f, tempCol, i), Value(f, headerCol, i);
      flow.Some? && flow.value != 0.0 && t.Some? && header.Some? && Abs(t.value - header.value) > thres
  {
    var test := HeaderMismatch(flowCol, tempCol, headerCol, thres);
    TestsRead(flowCol, tempCol, headerCol, thres, thres);
    var flow, t, header := Value(f, flowCol, i), Value(f, tempCol, i), Value(f, headerCol, i);
    var product := Times(Col(flowCol), Col(tempCol));
    var weighted := Quotient(product, Col(flowCol));
    assert Refs(product) == [flowCol, tempCol];
    assert Refs(weighted) == [flowCol, tempCol, flowCol];
    assert At(f, product, i) == if flow.Some? && t.Some? then Some(Product(flow.value, t.value)) else None;
    if flow.Some? && flow.value != 0.0 && t.Some? {
      RatioOfProduct(flow.value, t.value);
      assert At(f, weighted, i) == Some(t.value);
    } else {
      assert At(f, weighted, i) == None;
    }
    var diff := Minus(weighted, Col(headerCol));
    assert Refs(diff) == [flowCol, tempCol, flowCol, headerCol];
    assert At(f, diff, i) ==
      if At(f, weighted, i).Some? && header.Some? then Some(At(f, weighted, i).value - header.value) else None;
    assert test.left == Magnitude(diff);
  }

  /** A rule whose first requirement is a status check leaves, when it
      succeeds, an int status column with no value above 1. */
  lemma {:induction false} StatusPassed(f: Frame, r: ThresholdRules.ThresholdRule, statusCol: string)
    requires f.Valid() && r.WellFormed() && |r.requirements| > 0 && r.requirements[0] == BinaryStatus(statusCol)
    requires ThresholdRules.Evaluate(f, r).raised.None?
    ensures statusCol in f.columns && f.columns[statusCol].IntCol?
    ensures forall i :: 0 <= i < |f.columns[statusCol].ints| ==> f.columns[statusCol].ints[i] <= 1
  {
    ThresholdRules.ValidationFailureChangesNothing(f, r);
    assert Check(f, r.requirements[0]).None?;
    BinaryStatusVerdict(f, statusCol);
  }

  /** fc2 and fc3 in plant terms: the flow reads above the threshold while
      the pump status is 0. */
  predicate FlowWithPumpOffRow(f: Frame, thres: real, flowCol: string, statusCol: string, i: nat)
    requires f.Valid() && i < |f.index| && flowCol in f.columns && statusCol in f.columns
    requires f.columns[statusCol].IntCol?
  {
    var flow := Value(f, flowCol, i);
    flow.Some? && flow.value > thres && f.columns[statusCol].ints[i] == 0
  }

  lemma {:induction false} FlowWithPumpOffReads(flag: string, thres: real, flowCol: string, statusCol: string, ts: bool)
    requires flag != FLOW_METER_CHECK && flag != PUMP_CHECK
    requires {flowCol, statusCol} !! {FLOW_METER_CHECK, PUMP_CHECK}
    ensures var r := FlowWithPumpOff(flag, thres, flowCol, statusCol, ts);
      ReadsNoHelper(r.checks) && flowCol in DerivationRefs(r.checks[0])
  {
  }

  lemma {:induction false} FlowWithPumpOffChecks(f: Frame, flag: string, thres: real, flowCol: string,
                                                 statusCol: string, ts: bool, i: nat)
    requires flag != FLOW_METER_CHECK && flag != PUMP_CHECK
    requires f.Valid() && i < |f.index| && flowCol in f.columns && statusCol in f.columns
    requires f.columns[statusCol].IntCol?
    ensures var r := FlowWithPumpOff(flag, thres, flowCol, statusCol, ts);
      ThresholdRules.CheckHoldsAt(f, r.checks[0], i) && ThresholdRules.CheckHoldsAt(f, r.checks[1], i) <==>
        FlowWithPumpOffRow(f, thres, flowCol, statusCol, i)
  {
    ColumnVersusNumber(f, FLOW_METER_CHECK, Gt, flowCol, thres, i);
    ColumnVersusNumber(f, PUMP_CHECK, Eq, statusCol, 0.0, i);
  }

  /** fc2 and fc3: the flag of row i is 1 exactly when the flow is above
      the threshold and the pump status is 0. */
  lemma {:induction false} FlowWithPumpOffFlag(f: Frame, flag: string, thres: real, flowCol: string,
                            statusCol: string, ts: bool, i: nat)
    requires flag != FLOW_METER_CHECK && flag != PUMP_CHECK
    requires f.Valid() && i < |f.index|
    requires {flowCol, statusCol} !! {FLOW_METER_CHECK, PUMP_CHECK}
    requires ThresholdRules.Evaluate(f, FlowWithPumpOff(flag, thres, flowCol, statusCol, ts)).raised.None?
    ensures flowCol in f.columns && statusCol in f.columns && f.columns[statusCol].IntCol?
    ensures var g := ThresholdRules.Evaluate(f, FlowWithPumpOff(flag, thres, flowCol, statusCol, ts)).frame;
      flag in g.columns && g.columns[flag].IntCol? && i < |g.columns[flag].ints| &&
      (g.columns[flag].ints[i] == 1 <==> FlowWithPumpOffRow(f, thres, flowCol, statusCol, i))
  {
    var r := FlowWithPumpOff(flag, thres, flowCol, statusCol, ts);
    FlowWithPumpOffReads(flag, thres, flowCol, statusCol, ts);
    ThresholdRules.ReadColumnsPresent(f, r);
    StatusPassed(f, r, statusCol);
    ThresholdRules.TwoChecksFlag(f, r, i);
    FlowWithPumpOffChecks(f, flag, thres, flowCol, statusCol, ts, i);
  }

  /** fc1 in plant terms: the differential pressure is below its setpoint
      by more than the threshold while the pump status is 0. */
  predicate DiffPressWithPumpOffRow(f: Frame, thres: real, dpCol: string, statusCol: string, sptCol: string, i: nat)
    requires f.Valid() && i < |f.index| && dpCol in f.columns && sptCol in f.columns && statusCol in f.columns
    requires f.columns[statusCol].IntCol?
  {
    var dp, spt := Value(f, dpCol, i), Value(f, sptCol, i);
    dp.Some? && spt.Some? && dp.value < spt.value - thres && f.columns[statusCol].ints[i] == 0
  }

  lemma {:induction false} DiffPressWithPumpOffReads(thres: real, dpCol: string, statusCol: string, sptCol: string, ts: bool)
    requires {dpCol, statusCol, sptCol} !! {PUMP_DIFF_PRESS_CHECK, PUMP_CHECK}
    ensures var r := DiffPressWithPumpOff(thres, dpCol, statusCol, sptCol, ts);
      ReadsNoHelper(r.checks) && dpCol in DerivationRefs(r.checks[0]) && sptCol in DerivationRefs(r.checks[0])
  {
    TestsRead(dpCol, sptCol, sptCol, thres, thres);
  }

  lemma {:induction false} DiffPressWithPumpOffChecks(f: Frame, thres: real, dpCol: string, statusCol: string,
                                                      sptCol: string, ts: bool, i: nat)
    requires f.Valid() && i < |f.index| && dpCol in f.columns && sptCol in f.columns && statusCol in f.columns
    requires f.columns[statusCol].IntCol?
    ensures var r := DiffPressWithPumpOff(thres, dpCol, statusCol, sptCol, ts);
      ThresholdRules.CheckHoldsAt(f, r.checks[0], i) && ThresholdRules.CheckHoldsAt(f, r.checks[1], i) <==>
        DiffPressWithPumpOffRow(f, thres, dpCol, statusCol, sptCol, i)
  {
    DiffPressLowAt(f, PUMP_DIFF_PRESS_CHECK, dpCol, sptCol, thres, i);
    ColumnVersusNumber(f, PUMP_CHECK, Eq, statusCol, 0.0, i);
  }

  /** fc1 (checking the pump status it reads): the flag of row i is 1
      exactly when the differential pressure is below its setpoint by more
      than the threshold and the pump status is 0. */
  lemma {:induction false} DiffPressWithPumpOffFlag(f: Frame, thres: real, dpCol: string, statusCol: string,
                                                    sptCol: string, ts: bool, i: nat)
    requires f.Valid() && i < |f.index|
    requires {dpCol, statusCol, sptCol} !! {PUMP_DIFF_PRESS_CHECK, PUMP_CHECK}
    requires ThresholdRules.Evaluate(f, DiffPressWithPumpOff(thres, dpCol, statusCol, sptCol, ts)).raised.None?
    ensures dpCol in f.columns && sptCol in f.columns && statusCol in f.columns && f.columns[statusCol].IntCol?
    ensures var g := ThresholdRules.Evaluate(f, DiffPressWithPumpOff(thres, dpCol, statusCol, sptCol, ts)).frame;
      "fc1_flag" in g.columns && g.columns["fc1_flag"].IntCol? && i < |g.columns["fc1_flag"].ints| &&
      (g.columns["fc1_flag"].ints[i] == 1 <==> DiffPressWithPumpOffRow(f, thres, dpCol, statusCol, sptCol, i))
  {
    var r := DiffPressWithPumpOff(thres, dpCol, statusCol, sptCol, ts);
    DiffPressWithPumpOffReads(thres, dpCol, statusCol, sptCol, ts);
    ThresholdRules.ReadColumnsPresent(f, r);
    StatusPassed(f, r, statusCol);
    ThresholdRules.TwoChecksFlag(f, r, i);
    DiffPressWithPumpOffChecks(f, thres, dpCol, statusCol, sptCol, ts, i);
  }

  /** fc4 in plant terms: the differential pressure is below its setpoint
      by more than the threshold while the pump speed is at least the
      maximum less its error threshold. */
  predicate DiffPressAtFullSpeedRow(f: Frame, speedErr: real, speedMax: real, dpThres: real, dpCol: string,
                                    speedCol: string, sptCol: string, i: nat)
    requires f.Valid() && i < |f.index| && dpCol in f.columns && sptCol in f.columns && speedCol in f.columns
  {
    var dp, spt, speed := Value(f, dpCol, i), Value(f, sptCol, i), Value(f, speedCol, i);
    dp.Some? && spt.Some? && dp.value < spt.value - dpThres &&
    speed.Some? && speed.value >= speedMax - speedErr
  }

  lemma {:induction false} DiffPressAtFullSpeedReads(speedErr: real, speedMax: real, dpThres: real, dpCol: string,
                                                     speedCol: string, sptCol: string, ts: bool)
    requires {dpCol, speedCol, sptCol} !! {PUMP_DIFF_PRESS_CHECK, PUMP_CHECK}
    ensures var r := DiffPressAtFullSpeed(speedErr, speedMax, dpThres, dpCol, speedCol, sptCol, ts);
      ReadsNoHelper(r.checks) && dpCol in DerivationRefs(r.checks[0]) && sptCol in DerivationRefs(r.checks[0]) &&
      speedCol in DerivationRefs(r.checks[1])
  {
    TestsRead(dpCol, sptCol, sptCol, dpThres, dpThres);
  }

  lemma {:induction false} DiffPressAtFullSpeedChecks(f: Frame, speedErr: real, speedMax: real, dpThres: real, dpCol: string,
                                                      speedCol: string, sptCol: string, ts: bool, i: nat)
    requires f.Valid() && i < |f.index| && dpCol in f.columns && sptCol in f.columns && speedCol in f.columns
    ensures var r := DiffPressAtFullSpeed(speedErr, speedMax, dpThres, dpCol, speedCol, sptCol, ts);
      ThresholdRules.CheckHoldsAt(f, r.checks[0], i) && ThresholdRules.CheckHoldsAt(f, r.checks[1], i) <==>
        DiffPressAtFullSpeedRow(f, speedErr, speedMax, dpThres, dpCol, speedCol, sptCol, i)
  {
    DiffPressLowAt(f, PUMP_DIFF_PRESS_CHECK, dpCol, sptCol, dpThres, i);
    ColumnVersusNumber(f, PUMP_CHECK, Ge, speedCol, speedMax - speedErr, i);
  }

  /** fc4: the flag of row i is 1 exactly when the differential pressure
      is below its setpoint by more than the threshold and the pump speed
      is at least the maximum less its error threshold. */
  lemma {:induction false} DiffPressAtFullSpeedFlag(f: Frame, speedErr: real, speedMax: real, dpThres: real, dpCol: string,
                                                    speedCol: string, sptCol: string, ts: bool, i: nat)
    requires f.Valid() && i < |f.index|
    requires {dpCol, speedCol, sptCol} !! {PUMP_DIFF_PRESS_CHECK, PUMP_CHECK}
    requires ThresholdRules.Evaluate(f, DiffPressAtFullSpeed(speedErr, speedMax, dpThres, dpCol, speedCol, sptCol, ts)).raised.None?
    ensures dpCol in f.columns && sptCol in f.columns && speedCol in f.columns
    ensures var g := ThresholdRules.Evaluate(f, DiffPressAtFullSpeed(speedErr, speedMax, dpThres, dpCol, speedCol, sptCol, ts)).frame;
      "fc4_flag" in g.columns && g.columns["fc4_flag"].IntCol? && i < |g.columns["fc4_flag"].ints| &&
      (g.columns["fc4_flag"].ints[i] == 1 <==>
        DiffPressAtFullSpeedRow(f, speedErr, speedMax, dpThres, dpCol, speedCol, sptCol, i))
  {
    var r := DiffPressAtFullSpeed(speedErr, speedMax, dpThres, dpCol, speedCol, sptCol, ts);
    DiffPressAtFullSpeedReads(speedErr, speedMax, dpThres, dpCol, speedCol, sptCol, ts);
    ThresholdRules.ReadColumnsPresent(f, r);
    ThresholdRules.TwoChecksFlag(f, r, i);
    DiffPressAtFullSpeedChecks(f, speedErr, speedMax, dpThres, dpCol, speedCol, sptCol, ts, i);
  }

  /** fc5 in plant terms: the flow is below the minimum less its error
      threshold, the bypass valve command is at least 0.99 less its error
      threshold, and the pump status is 1. */
  predicate LowFlowBypassOpenRow(f: Frame, flowErr: real, minFlow: real, bypassErr: real, flowCol: string,
                                 bypassCol: string, statusCol: string, i: nat)
    requires f.Valid() && i < |f.index| && flowCol in f.columns && bypassCol in f.columns && statusCol in f.columns
    requires f.columns[statusCol].IntCol?
  {
    var flow, bypass := Value(f, flowCol, i), Value(f, bypassCol, i);
    flow.Some? && flow.value < minFlow - flowErr &&
    bypass.Some? && bypass.value >= 0.99 - bypassErr &&
    f.columns[statusCol].ints[i] == 1
  }

  lemma {:induction false} LowFlowBypassOpenReads(flowErr: real, minFlow: real, bypassErr: real, flowCol: string,
                                                  bypassCol: string, statusCol: string, ts: bool)
    requires {flowCol, bypassCol, statusCol} !! {FLOWMETER_CHECK, BYPASS_VLV_CHECK, PUMP_CHECK}
    ensures var r := LowFlowBypassOpen(flowErr, minFlow, bypassErr, flowCol, bypassCol, statusCol, ts);
      ReadsNoHelper(r.checks) && flowCol in DerivationRefs(r.checks[0]) && bypassCol in DerivationRefs(r.checks[1])
  {
  }

  lemma {:induction false} LowFlowBypassOpenChecks(f: Frame, flowErr: real, minFlow: real, bypassErr: real, flowCol: string,
                                                   bypassCol: string, statusCol: string, ts: bool, i: nat)
    requires f.Valid() && i < |f.index| && flowCol in f.columns && bypassCol in f.columns && statusCol in f.columns
    requires f.columns[statusCol].IntCol?
    ensures var r := LowFlowBypassOpen(flowErr, minFlow, bypassErr, flowCol, bypassCol, statusCol, ts);
      ThresholdRules.CheckHoldsAt(f, r.checks[0], i) && ThresholdRules.CheckHoldsAt(f, r.checks[1], i) &&
      ThresholdRules.CheckHoldsAt(f, r.checks[2], i) <==>
        LowFlowBypassOpenRow(f, flowErr, minFlow, bypassErr, flowCol, bypassCol, statusCol, i)
  {
    ColumnVersusNumber(f, FLOWMETER_CHECK, Lt, flowCol, minFlow - flowErr, i);
    ColumnVersusNumber(f, BYPASS_VLV_CHECK, Ge, bypassCol, 0.99 - bypassErr, i);
    ColumnVersusNumber(f, PUMP_CHECK, Eq, statusCol, 1.0, i);
  }

  /** fc5: the flag of row i is 1 exactly when the flow is below the
      minimum less its error threshold, the bypass valve command is at
      least 0.99 less its error threshold, and the pump status is 1. */
  lemma {:induction false} LowFlowBypassOpenFlag(f: Frame, flowErr: real, minFlow: real, bypassErr: real, flowCol: string,
                                                 bypassCol: string, statusCol: string, ts: bool, i: nat)
    requires f.Valid() && i < |f.index|
    requires {flowCol, bypassCol, statusCol} !! {FLOWMETER_CHECK, BYPASS_VLV_CHECK, PUMP_CHECK}
    requires ThresholdRules.Evaluate(f, LowFlowBypassOpen(flowErr, minFlow, bypassErr, flowCol, bypassCol, statusCol, ts)).raised.None?
    ensures flowCol in f.columns && bypassCol in f.columns && statusCol in f.columns && f.columns[statusCol].IntCol?
    ensures var g := ThresholdRules.Evaluate(f, LowFlowBypassOpen(flowErr, minFlow, bypassErr, flowCol, bypassCol, statusCol, ts)).frame;
      "fc5_flag" in g.columns && g.columns["fc5_flag"].IntCol? && i < |g.columns["fc5_flag"].ints| &&
      (g.columns["fc5_flag"].ints[i] == 1 <==>
        LowFlowBypassOpenRow(f, flowErr, minFlow, bypassErr, flowCol, bypassCol, statusCol, i))
  {
    var r := LowFlowBypassOpen(flowErr, minFlow, bypassErr, flowCol, bypassCol, statusCol, ts);
    LowFlowBypassOpenReads(flowErr, minFlow, bypassErr, flowCol, bypassCol, statusCol, ts);
    ThresholdRules.ReadColumnsPresent(f, r);
    StatusPassed(f, r, statusCol);
    ThresholdRules.ThreeChecksFlag(f, r, i);
    LowFlowBypassOpenChecks(f, flowErr, minFlow, bypassErr, flowCol, bypassCol, statusCol, ts, i);
  }

  /** fc6 in plant terms: the supply temperature plus the threshold is
      below the setpoint while the pump status is 1. */
  predicate SupplyBelowSetpointPumpOnRow(f: Frame, thres: real, supplyCol: string, sptCol: string, statusCol: string, i: nat)
    requires f.Valid() && i < |f.index| && supplyCol in f.columns && sptCol in f.columns && statusCol in f.columns
    requires f.columns[statusCol].IntCol?
  {
    var supply, spt := Value(f, supplyCol, i), Value(f, sptCol, i);
    supply.Some? && spt.Some? && supply.value + thres < spt.value && f.columns[statusCol].ints[i] == 1
  }

  lemma {:induction false} SupplyBelowSetpointPumpOnReads(thres: real, supplyCol: string, sptCol: string, statusCol: string, ts: bool)
    requires {supplyCol, sptCol, statusCol} !! {HW_SPT_CHECK, PUMP_CHECK}
    ensures var r := SupplyBelowSetpointPumpOn(thres, supplyCol, sptCol, statusCol, ts);
      ReadsNoHelper(r.checks) && supplyCol in DerivationRefs(r.checks[0]) && sptCol in DerivationRefs(r.checks[0])
  {
    TestsRead(supplyCol, sptCol, sptCol, thres, thres);
  }

  lemma {:induction false} SupplyBelowSetpointPumpOnChecks(f: Frame, thres: real, supplyCol: string, sptCol: string,
                                                           statusCol: string, ts: bool, i: nat)
    requires f.Valid() && i < |f.index| && supplyCol in f.columns && sptCol in f.columns && statusCol in f.columns
    requires f.columns[statusCol].IntCol?
    ensures var r := SupplyBelowSetpointPumpOn(thres, supplyCol, sptCol, statusCol, ts);
      ThresholdRules.CheckHoldsAt(f, r.checks[0], i) && ThresholdRules.CheckHoldsAt(f, r.checks[1], i) <==>
        SupplyBelowSetpointPumpOnRow(f, thres, supplyCol, sptCol, statusCol, i)
  {
    SupplyBelowSetpointAt(f, HW_SPT_CHECK, supplyCol, sptCol, thres, i);
    ColumnVersusNumber(f, PUMP_CHECK, Eq, statusCol, 1.0, i);
  }

  /** fc6 (compared with the setpoint column): the flag of row i is 1
      exactly when the supply temperature plus the threshold is below the
      setpoint and the pump status is 1. */
  lemma {:induction false} SupplyBelowSetpointPumpOnFlag(f: Frame, thres: real, supplyCol: string, sptCol: string,
                                                         statusCol: string, ts: bool, i: nat)
    requires f.Valid() && i < |f.index|
    requires {supplyCol, sptCol, statusCol} !! {HW_SPT_CHECK, PUMP_CHECK}
    requires ThresholdRules.Evaluate(f, SupplyBelowSetpointPumpOn(thres, supplyCol, sptCol, statusCol, ts)).raised.None?
    ensures supplyCol in f.columns && sptCol in f.columns && statusCol in f.columns && f.columns[statusCol].IntCol?
    ensures var g := ThresholdRules.Evaluate(f, SupplyBelowSetpointPumpOn(thres, supplyCol, sptCol, statusCol, ts)).frame;
      "fc6_flag" in g.columns && g.columns["fc6_flag"].IntCol? && i < |g.columns["fc6_flag"].ints| &&
      (g.columns["fc6_flag"].ints[i] == 1 <==> SupplyBelowSetpointPumpOnRow(f, thres, supplyCol, sptCol, statusCol, i))
  {
    var r := SupplyBelowSetpointPumpOn(thres, supplyCol, sptCol, statusCol, ts);
    SupplyBelowSetpointPumpOnReads(thres, supplyCol, sptCol, statusCol, ts);
    ThresholdRules.ReadColumnsPresent(f, r);
    StatusPassed(f, r, statusCol);
    ThresholdRules.TwoChecksFlag(f, r, i);
    SupplyBelowSetpointPumpOnChecks(f, thres, supplyCol, sptCol, statusCol, ts, i);
  }

  /** fc7 in plant terms: the gauge pressure is below 90% of the expansion
      tank setpoint while the pump status is 1. */
  predicate LowGaugePressureRow(f: Frame, stp: real, gaugeCol: string, statusCol: string, i: nat)
    requires f.Valid() && i < |f.index| && gaugeCol in f.columns && statusCol in f.columns
    requires f.columns[statusCol].IntCol?
  {
    var gauge := Value(f, gaugeCol, i);
    gauge.Some? && gauge.value < stp * 0.9 && f.columns[statusCol].ints[i] == 1
  }

  lemma {:induction false} LowGaugePressureReads(stp: real, gaugeCol: string, statusCol: string, ts: bool)
    requires {gaugeCol, statusCol} !! {HW_SYS_STATIC_PRESS_CHECK, PUMP_CHECK}
    ensures var r := LowGaugePressure(stp, gaugeCol, statusCol, ts);
      ReadsNoHelper(r.checks) && gaugeCol in DerivationRefs(r.checks[0])
  {
  }

  lemma {:induction false} LowGaugePressureChecks(f: Frame, stp: real, gaugeCol: string, statusCol: string, ts: bool, i: nat)
    requires f.Valid() && i < |f.index| && gaugeCol in f.columns && statusCol in f.columns
    requires f.columns[statusCol].IntCol?
    ensures var r := LowGaugePressure(stp, gaugeCol, statusCol, ts);
      ThresholdRules.CheckHoldsAt(f, r.checks[0], i) && ThresholdRules.CheckHoldsAt(f, r.checks[1], i) <==>
        LowGaugePressureRow(f, stp, gaugeCol, statusCol, i)
  {
    ColumnVersusNumber(f, HW_SYS_STATIC_PRESS_CHECK, Lt, gaugeCol, stp * 0.9, i);
    ColumnVersusNumber(f, PUMP_CHECK, Eq, statusCol, 1.0, i);
  }

  /** fc7: the flag of row i is 1 exactly when the gauge pressure is below
      90% of the expansion tank setpoint and the pump status is 1. */
  lemma {:induction false} LowGaugePressureFlag(f: Frame, stp: real, gaugeCol: string, statusCol: string, ts: bool, i: nat)
    requires f.Valid() && i < |f.index|
    requires {gaugeCol, statusCol} !! {HW_SYS_STATIC_PRESS_CHECK, PUMP_CHECK}
    requires ThresholdRules.Evaluate(f, LowGaugePressure(stp, gaugeCol, statusCol, ts)).raised.None?
    ensures gaugeCol in f.columns && statusCol in f.columns && f.columns[statusCol].IntCol?
    ensures var g := ThresholdRules.Evaluate(f, LowGaugePressure(stp, gaugeCol, statusCol, ts)).frame;
      "fc7_flag" in g.columns && g.columns["fc7_flag"].IntCol? && i < |g.columns["fc7_flag"].ints| &&
      (g.columns["fc7_flag"].ints[i] == 1 <==> LowGaugePressureRow(f, stp, gaugeCol, statusCol, i))
  {
    var r := LowGaugePressure(stp, gaugeCol, statusCol, ts);
    LowGaugePressureReads(stp, gaugeCol, statusCol, ts);
    ThresholdRules.ReadColumnsPresent(f, r);
    StatusPassed(f, r, statusCol);
    ThresholdRules.TwoChecksFlag(f, r, i);
    LowGaugePressureChecks(f, stp, gaugeCol, statusCol, ts, i);
  }

  /** fc8 in plant terms: the return temperature less the threshold is
      above the condensing temperature while the pump status is 1. */
  predicate ReturnTooHotRow(f: Frame, thres: real, condensing: real, returnCol: string, statusCol: string, i: nat)
    requires f.Valid() && i < |f.index| && returnCol in f.columns && statusCol in f.columns
    requires f.columns[statusCol].IntCol?
  {
    var ret := Value(f, returnCol, i);
    ret.Some? && ret.value - thres > condensing && f.columns[statusCol].ints[i] == 1
  }

  /** fc9 in plant terms: the return temperature plus the threshold is
      below the condensing temperature while the pump status is 1. */
  predicate ReturnTooColdRow(f: Frame, thres: real, condensing: real, returnCol: string, statusCol: string, i: nat)
    requires f.Valid() && i < |f.index| && returnCol in f.columns && statusCol in f.columns
    requires f.columns[statusCol].IntCol?
  {
    var ret := Value(f, returnCol, i);
    ret.Some? && ret.value + thres < condensing && f.columns[statusCol].ints[i] == 1
  }

  lemma {:induction false} ReturnChecksRead(thres: real, condensing: real, returnCol: string, statusCol: string, ts: bool)
    requires {returnCol, statusCol} !! {BOILER_CONDENSING_CHECK, PUMP_CHECK}
    ensures var r := ReturnTooHot(thres, condensing, returnCol, statusCol, ts);
      ReadsNoHelper(r.checks) && returnCol in DerivationRefs(r.checks[0])
    ensures var r := ReturnTooCold(thres, condensing, returnCol, statusCol, ts);
      ReadsNoHelper(r.checks) && returnCol in DerivationRefs(r.checks[0])
  {
    TestsRead(returnCol, returnCol, returnCol, thres, condensing);
  }

  lemma {:induction false} ReturnChecks(f: Frame, thres: real, condensing: real, returnCol: string, statusCol: string, ts: bool, i: nat)
    requires f.Valid() && i < |f.index| && returnCol in f.columns && statusCol in f.columns
    requires f.columns[statusCol].IntCol?
    ensures var r := ReturnTooHot(thres, condensing, returnCol, statusCol, ts);
      ThresholdRules.CheckHoldsAt(f, r.checks[0], i) && ThresholdRules.CheckHoldsAt(f, r.checks[1], i) <==>
        ReturnTooHotRow(f, thres, condensing, returnCol, statusCol, i)
    ensures var r := ReturnTooCold(thres, condensing, returnCol, statusCol, ts);
      ThresholdRules.CheckHoldsAt(f, r.checks[0], i) && ThresholdRules.CheckHoldsAt(f, r.checks[1], i) <==>
        ReturnTooColdRow(f, thres, condensing, returnCol, statusCol, i)
  {
    OffsetVersusNumber(f, BOILER_CONDENSING_CHECK, returnCol, thres, condensing, i);
    ColumnVersusNumber(f, PUMP_CHECK, Eq, statusCol, 1.0, i);
  }

  /** fc8: the flag of row i is 1 exactly when the return temperature less
      the threshold is above the condensing temperature and the pump
      status is 1. */
  lemma {:induction false} ReturnTooHotFlag(f: Frame, thres: real, condensing: real, returnCol: string, statusCol: string, ts: bool, i: nat)
    requires f.Valid() && i < |f.index|
    requires {returnCol, statusCol} !! {BOILER_CONDENSING_CHECK, PUMP_CHECK}
    requires ThresholdRules.Evaluate(f, ReturnTooHot(thres, condensing, returnCol, statusCol, ts)).raised.None?
    ensures returnCol in f.columns && statusCol in f.columns && f.columns[statusCol].IntCol?
    ensures var g := ThresholdRules.Evaluate(f, ReturnTooHot(thres, condensing, returnCol, statusCol, ts)).frame;
      "fc8_flag" in g.columns && g.columns["fc8_flag"].IntCol? && i < |g.columns["fc8_flag"].ints| &&
      (g.columns["fc8_flag"].ints[i] == 1 <==> ReturnTooHotRow(f, thres, condensing, returnCol, statusCol, i))
  {
    var r := ReturnTooHot(thres, condensing, returnCol, statusCol, ts);
    ReturnChecksRead(thres, condensing, returnCol, statusCol, ts);
    ThresholdRules.ReadColumnsPresent(f, r);
    StatusPassed(f, r, statusCol);
    ThresholdRules.TwoChecksFlag(f, r, i);
    ReturnChecks(f, thres, condensing, returnCol, statusCol, ts, i);
  }

  /** fc9: the flag of row i is 1 exactly when the return temperature plus
      the threshold is below the condensing temperature and the pump
      status is 1. */
  lemma {:induction false} ReturnTooColdFlag(f: Frame, thres: real, condensing: real, returnCol: string, statusCol: string, ts: bool, i: nat)
    requires f.Valid() && i < |f.index|
    requires {returnCol, statusCol} !! {BOILER_CONDENSING_CHECK, PUMP_CHECK}
    requires ThresholdRules.Evaluate(f, ReturnTooCold(thres, condensing, returnCol, statusCol, ts)).raised.None?
    ensures returnCol in f.columns && statusCol in f.columns && f.columns[statusCol].IntCol?
    ensures var g := ThresholdRules.Evaluate(f, ReturnTooCold(thres, condensing, returnCol, statusCol, ts)).frame;
      "fc9_flag" in g.columns && g.columns["fc9_flag"].IntCol? && i < |g.columns["fc9_flag"].ints| &&
      (g.columns["fc9_flag"].ints[i] == 1 <==> ReturnTooColdRow(f, thres, condensing, returnCol, statusCol, i))
  {
    var r := ReturnTooCold(thres, condensing, returnCol, statusCol, ts);
    ReturnChecksRead(thres, condensing, returnCol, statusCol, ts);
    ThresholdRules.ReadColumnsPresent(f, r);
    StatusPassed(f, r, statusCol);
    ThresholdRules.TwoChecksFlag(f, r, i);
    ReturnChecks(f, thres, condensing, returnCol, statusCol, ts, i);
  }

  /** fc10 and fc11 in plant terms: the flow is present and nonzero, the
      boiler temperature and the header temperature differ by more than
      the threshold, and the boiler status is 1. */
  predicate HeaderTempMismatchRow(f: Frame, thres: real, flowCol: string, tempCol: string,
                                  headerCol: string, statusCol: string, i: nat)
    requires f.Valid() && i < |f.index| && flowCol in f.columns && tempCol in f.columns && headerCol in f.columns
    requires statusCol in f.columns && f.columns[statusCol].IntCol?
  {
    var flow, t, header := Value(f, flowCol, i), Value(f, tempCol, i), Value(f, headerCol, i);
    flow.Some? && flow.value != 0.0 && t.Some? && header.Some? && Abs(t.value - header.value) > thres &&
    f.columns[statusCol].ints[i] == 1
  }

  lemma {:induction false} HeaderTempMismatchReads(flag: string, thres: real, flowCol: string, tempCol: string,
                                                   headerCol: string, statusCol: string, ts: bool)
    requires flag != BOILER_VS_HEADER_CHECK && flag != BOILER_CHECK
    requires {flowCol, tempCol, headerCol, statusCol} !! {BOILER_VS_HEADER_CHECK, BOILER_CHECK}
    ensures var r := HeaderTempMismatch(flag, thres, flowCol, tempCol, headerCol, statusCol, ts);
      ReadsNoHelper(r.checks) && DerivationRefs(r.checks[0]) == [flowCol, tempCol, flowCol, headerCol]
  {
    TestsRead(flowCol, tempCol, headerCol, thres, thres);
  }

  lemma {:induction false} HeaderTempMismatchChecks(f: Frame, flag: string, thres: real, flowCol: string, tempCol: string,
                                                    headerCol: string, statusCol: string, ts: bool, i: nat)
    requires flag != BOILER_VS_HEADER_CHECK && flag != BOILER_CHECK
    requires f.Valid() && i < |f.index| && flowCol in f.columns && tempCol in f.columns && headerCol in f.columns
    requires statusCol in f.columns && f.columns[statusCol].IntCol?
    ensures var r := HeaderTempMismatch(flag, thres, flowCol, tempCol, headerCol, statusCol, ts);
      ThresholdRules.CheckHoldsAt(f, r.checks[0], i) && ThresholdRules.CheckHoldsAt(f, r.checks[1], i) <==>
        HeaderTempMismatchRow(f, thres, flowCol, tempCol, headerCol, statusCol, i)
  {
    HeaderMismatchAt(f, BOILER_VS_HEADER_CHECK, flowCol, tempCol, headerCol, thres, i);
    ColumnVersusNumber(f, BOILER_CHECK, Eq, statusCol, 1.0, i);
  }

  /** fc10 and fc11: the flag of row i is 1 exactly when the flow is
      present and nonzero, the boiler temperature and the header
      temperature differ by more than the threshold, and the boiler status
      is 1. */
  lemma {:induction false} HeaderTempMismatchFlag(f: Frame, flag: string, thres: real, flowCol: string, tempCol: string,
                                                  headerCol: string, statusCol: string, ts: bool, i: nat)
    requires flag != BOILER_VS_HEADER_CHECK && flag != BOILER_CHECK
    requires f.Valid() && i < |f.index|
    requires {flowCol, tempCol, headerCol, statusCol} !! {BOILER_VS_HEADER_CHECK, BOILER_CHECK}
    requires ThresholdRules.Evaluate(f, HeaderTempMismatch(flag, thres, flowCol, tempCol, headerCol, statusCol, ts)).raised.None?
    ensures flowCol in f.columns && tempCol in f.columns && headerCol in f.columns &&
      statusCol in f.columns && f.columns[statusCol].IntCol?
    ensures var g := ThresholdRules.Evaluate(f, HeaderTempMismatch(flag, thres, flowCol, tempCol, headerCol, statusCol, ts)).frame;
      flag in g.columns && g.columns[flag].IntCol? && i < |g.columns[flag].ints| &&
      (g.columns[flag].ints[i] == 1 <==> HeaderTempMismatchRow(f, thres, flowCol, tempCol, headerCol, statusCol, i))
  {
    var r := HeaderTempMismatch(flag, thres, flowCol, tempCol, headerCol, statusCol, ts);
    HeaderTempMismatchReads(flag, thres, flowCol, tempCol, headerCol, statusCol, ts);
    ThresholdRules.ReadColumnsPresent(f, r);
    StatusPassed(f, r, statusCol);
    ThresholdRules.TwoChecksFlag(f, r, i);
    HeaderTempMismatchChecks(f, flag, thres, flowCol, tempCol, headerCol, statusCol, ts, i);
  }
}
