/** The shape shared by the cycling rules FaultConditionTwelve to
    FaultConditionFourteen: assign on/off (or stage change) helper columns
    on the caller's table, rebind `df` to `df.astype(int)`, resample it
    into one-hour buckets counting rising edges in every column, and flag
    an hour when some column's count exceeds the configured maximum. */
module CyclingRules {
  import opened Tables
  import opened Validation
  import opened Expressions

  // ---------------------------------------------------------------------
  // Rising edges: (x.eq(1) & x.shift().ne(1)).sum() on one bucket

  /** Row i of a bucket equals 1 and the row before it, if any, does not
      (shift() gives NaN in the first row, and NaN != 1). */
  predicate IsRisingEdge(xs: seq<int>, i: nat)
    requires i < |xs|
  {
    xs[i] == 1 && (i == 0 || xs[i - 1] != 1)
  }

  function RisingEdges(xs: seq<int>): nat
  {
    if xs == [] then 0
    else RisingEdges(xs[..|xs| - 1]) + (if IsRisingEdge(xs, |xs| - 1) then 1 else 0)
  }

  /** The count, one row at a time. */
  method CountRisingEdges(xs: seq<int>) returns (n: nat)
    ensures n == RisingEdges(xs)
  {
    n := 0;
    var i := 0;
    while i < |xs|
      invariant 0 <= i <= |xs|
      invariant n == RisingEdges(xs[..i])
    {
      if xs[i] == 1 && (i == 0 || xs[i - 1] != 1) {
        n := n + 1;
      }
      assert xs[..i + 1][..i] == xs[..i];
      i := i + 1;
    }
    assert xs[..i] == xs;
  }

  function EdgeSet(xs: seq<int>): set<nat>
  {
    set i: nat | i < |xs| && IsRisingEdge(xs, i)
  }

  /** The count is the number of rows that are rising edges. */
  lemma {:induction false} RisingEdgesCountsEdges(xs: seq<int>)
    ensures RisingEdges(xs) == |EdgeSet(xs)|
  {
    if xs != [] {
      var m := |xs| - 1;
      var prefix := xs[..m];
      RisingEdgesCountsEdges(prefix);
      assert forall i :: 0 <= i < m ==> (IsRisingEdge(xs, i) <==> IsRisingEdge(prefix, i));
      if IsRisingEdge(xs, m) {
        assert EdgeSet(xs) == EdgeSet(prefix) + {m};
        assert m !in EdgeSet(prefix);
      } else {
        assert EdgeSet(xs) == EdgeSet(prefix);
      }
    }
  }

  /** Two rising edges are never adjacent: a bucket of n rows has at most
      (n + 1) / 2 of them. */
  lemma {:induction false} RisingEdgesAlternate(xs: seq<int>)
    ensures 2 * RisingEdges(xs) <= |xs| + (if xs != [] && xs[|xs| - 1] == 1 then 1 else 0)
  {
    if xs != [] {
      var m := |xs| - 1;
      RisingEdgesAlternate(xs[..m]);
    }
  }

  /** A bucket with a 1 in it has at least one rising edge: the first 1. */
  lemma {:induction false} OneMeansEdge(xs: seq<int>, j: nat)
    requires j < |xs| && xs[j] == 1
    ensures RisingEdges(xs) >= 1
  {
    var m := |xs| - 1;
    var prefix := xs[..m];
    if !IsRisingEdge(xs, m) {
      if j == m {
        OneMeansEdge(prefix, m - 1);
      } else {
        OneMeansEdge(prefix, j);
      }
    }
  }

  lemma {:induction false} NoOneNoEdge(xs: seq<int>)
    requires forall i :: 0 <= i < |xs| ==> xs[i] != 1
    ensures RisingEdges(xs) == 0
  {
    if xs != [] {
      NoOneNoEdge(xs[..|xs| - 1]);
    }
  }

  /** The count is at most the number of rows (indeed about half of it),
      and it is zero exactly when no row equals 1. */
  lemma {:induction false} RisingEdgesBounds(xs: seq<int>)
    ensures RisingEdges(xs) <= (|xs| + 1) / 2 && RisingEdges(xs) <= |xs|
    ensures RisingEdges(xs) == 0 <==> forall i :: 0 <= i < |xs| ==> xs[i] != 1
  {
    RisingEdgesAlternate(xs);
    if exists j :: 0 <= j < |xs| && xs[j] == 1 {
      var j :| 0 <= j < |xs| && xs[j] == 1;
      OneMeansEdge(xs, j);
    } else {
      NoOneNoEdge(xs);
    }
  }

  /** The 0/1 column `x == 1` of a bucket. */
  function IndicatorOfOne(xs: seq<int>): (ys: seq<int>)
    ensures |ys| == |xs|
  {
    seq(|xs|, i requires 0 <= i < |xs| => if xs[i] == 1 then 1 else 0)
  }

  /** Only the test `== 1` matters: a column and its `== 1` indicator have
      the same rising edges, so `boiler_on_mode` counts exactly what the
      boiler status column counts. */
  lemma {:induction false} EdgesSeeOnlyOnes(xs: seq<int>)
    ensures RisingEdges(IndicatorOfOne(xs)) == RisingEdges(xs)
  {
    if xs != [] {
      var m := |xs| - 1;
      assert IndicatorOfOne(xs)[..m] == IndicatorOfOne(xs[..m]);
      EdgesSeeOnlyOnes(xs[..m]);
    }
  }

  /** A status alternating off and on within one hour starts three times:
      more than a maximum of 2, and not more than a maximum of 3. */
  lemma {:induction false} AlternatingStatusExample()
    ensures RisingEdges([0, 1, 0, 1, 0, 1, 0]) == 3
    ensures RisingEdges([0, 1, 0, 1, 0, 1, 0]) > 2 && !(RisingEdges([0, 1, 0, 1, 0, 1, 0]) > 3)
  {
    var xs := [0, 1, 0, 1, 0, 1, 0];
    assert RisingEdges(xs[..0]) == 0;
    assert xs[..1][..0] == xs[..0];
    assert RisingEdges(xs[..1]) == 0;
    assert xs[..2][..1] == xs[..1];
    assert RisingEdges(xs[..2]) == 1;
    assert xs[..3][..2] == xs[..2];
    assert RisingEdges(xs[..3]) == 1;
    assert xs[..4][..3] == xs[..3];
    assert RisingEdges(xs[..4]) == 2;
    assert xs[..5][..4] == xs[..4];
    assert RisingEdges(xs[..5]) == 2;
    assert xs[..6][..5] == xs[..5];
    assert RisingEdges(xs[..6]) == 3;
    assert xs[..7][..6] == xs[..6];
    assert RisingEdges(xs[..7]) == 3;
    assert xs[..7] == xs;
  }

  /** Stage changes of two are not 1s and never count; only the single
      change of one does. */
  lemma {:induction false} StageJumpsExample()
    ensures RisingEdges([0, 2, 0, 2, 1]) == 1
  {
    var xs := [0, 2, 0, 2, 1];
    assert RisingEdges(xs[..0]) == 0;
    assert xs[..1][..0] == xs[..0];
    assert RisingEdges(xs[..1]) == 0;
    assert xs[..2][..1] == xs[..1];
    assert RisingEdges(xs[..2]) == 0;
    assert xs[..3][..2] == xs[..2];
    assert RisingEdges(xs[..3]) == 0;
    assert xs[..4][..3] == xs[..3];
    assert RisingEdges(xs[..4]) == 0;
    assert xs[..5][..4] == xs[..4];
    assert RisingEdges(xs[..5]) == 1;
    assert xs[..5] == xs;
  }

  // ---------------------------------------------------------------------
  // df.astype(int)

  /** Conversion of a float to int: truncation toward zero. */
  function Trunc(x: real): (n: int)
    ensures 0.0 <= x ==> n as real <= x < n as real + 1.0
    ensures x < 0.0 ==> n as real - 1.0 < x <= n as real
  {
    if x >= 0.0 then x.Floor else -((-x).Floor)
  }

  predicate HasMissing(c: Column) {
    c.FloatCol? && exists i :: 0 <= i < |c.reals| && c.reals[i].None?
  }

  function CastColumn(c: Column): (d: Column)
    requires !HasMissing(c)
    ensures d.IntCol? && d.Length() == c.Length()
    ensures forall i :: 0 <= i < c.Length() ==> c.Cell(i).Some? && d.ints[i] == Trunc(c.Cell(i).value)
  {
    match c
    case IntCol(xs) => c
    case BoolCol(bs) => IntCol(seq(|bs|, i requires 0 <= i < |bs| => if bs[i] then 1 else 0))
    case FloatCol(xs) => IntCol(seq(|xs|, i requires 0 <= i < |xs| => Trunc(xs[i].value)))
  }

  predicate AllInt(f: Frame) {
    forall n :: n in f.columns ==> f.columns[n].IntCol?
  }

  /** `df.astype(int)`: every column becomes int64; a NaN anywhere raises. */
  function CastAll(f: Frame): (r: Result<Frame>)
    requires f.Valid()
    ensures r.Err? <==> exists n :: n in f.columns && HasMissing(f.columns[n])
    ensures r.Err? ==> r.fault == IntCastingNaN
    ensures r.Ok? ==> (r.value.Valid() && AllInt(r.value) && r.value.index == f.index &&
                       r.value.columns.Keys == f.columns.Keys)
    ensures r.Ok? ==> forall n, i :: n in f.columns && 0 <= i < |f.index| ==>
      f.columns[n].Cell(i).Some? && r.value.columns[n].ints[i] == Trunc(f.columns[n].Cell(i).value)
  {
    if exists n :: n in f.columns && HasMissing(f.columns[n]) then Err(IntCastingNaN)
    else Ok(Frame(f.index, map n | n in f.columns :: CastColumn(f.columns[n])))
  }

  // ---------------------------------------------------------------------
  // Sorting by time: resample takes the rows in time order, and a stable
  // sort keeps rows with equal times in their table order

  predicate PositionsIn(order: seq<nat>, n: nat) {
    forall k :: 0 <= k < |order| ==> order[k] < n
  }

  function Positions(n: nat): (ps: seq<nat>)
    ensures |ps| == n && forall k :: 0 <= k < n ==> ps[k] == k
  {
    seq(n, k requires 0 <= k < n => k as nat)
  }

  /** Puts row p after every row whose time is not later than its own. */
  function Insert(ts: seq<int>, order: seq<nat>, p: nat): (r: seq<nat>)
    requires p < |ts| && PositionsIn(order, |ts|)
    ensures PositionsIn(r, |ts|) && multiset(r) == multiset(order) + multiset{p}
  {
    if order == [] then [p]
    else if ts[p] < ts[order[0]] then [p] + order
    else
      assert order == [order[0]] + order[1..];
      [order[0]] + Insert(ts, order[1..], p)
  }

  /** The first n rows in time order. */
  function SortByTime(ts: seq<int>, n: nat): (order: seq<nat>)
    requires n <= |ts|
    ensures PositionsIn(order, |ts|) && multiset(order) == multiset(Positions(n))
  {
    if n == 0 then []
    else
      assert Positions(n) == Positions(n - 1) + [n - 1];
      Insert(ts, SortByTime(ts, n - 1), n - 1)
  }

  /** Row a comes before row b: an earlier time, or the same time and an
      earlier place in the table. */
  predicate Before(ts: seq<int>, a: nat, b: nat)
    requires a < |ts| && b < |ts|
  {
    ts[a] < ts[b] || (ts[a] == ts[b] && a < b)
  }

  /** Rows in time order, and rows with equal times in table order. */
  predicate StablyByTime(ts: seq<int>, order: seq<nat>)
    requires PositionsIn(order, |ts|)
  {
    forall k, l :: 0 <= k < l < |order| ==> Before(ts, order[k], order[l])
  }

  lemma {:induction false} InsertMembers(ts: seq<int>, order: seq<nat>, p: nat, l: nat)
    requires p < |ts| && PositionsIn(order, |ts|) && l < |Insert(ts, order, p)|
    ensures Insert(ts, order, p)[l] == p || exists i :: 0 <= i < |order| && order[i] == Insert(ts, order, p)[l]
  {
    var r := Insert(ts, order, p);
    assert r[l] in multiset(r);
    if r[l] != p {
      assert r[l] in multiset(order);
    }
  }

  /** A row before every row of an ordered sequence can go in front of it. */
  lemma {:induction false} ConsKeepsOrder(ts: seq<int>, x: nat, s: seq<nat>)
    requires x < |ts| && PositionsIn(s, |ts|) && StablyByTime(ts, s)
    requires forall l :: 0 <= l < |s| ==> Before(ts, x, s[l])
    ensures PositionsIn([x] + s, |ts|) && StablyByTime(ts, [x] + s)
  {
    var r := [x] + s;
    forall k, l | 0 <= k < l < |r|
      ensures Before(ts, r[k], r[l])
    {
      assert r[l] == s[l - 1];
      if k > 0 {
        assert r[k] == s[k - 1];
      }
    }
  }

  lemma {:induction false} TailKeepsOrder(ts: seq<int>, order: seq<nat>, p: nat)
    requires order != [] && PositionsIn(order, |ts|) && StablyByTime(ts, order) && PositionsIn(order, p)
    ensures PositionsIn(order[1..], |ts|) && StablyByTime(ts, order[1..]) && PositionsIn(order[1..], p)
  {
    var rest := order[1..];
    forall k, l | 0 <= k < l < |rest|
      ensures Before(ts, rest[k], rest[l])
    {
      assert rest[k] == order[k + 1] && rest[l] == order[l + 1];
    }
  }

  lemma {:induction false} PrependKeepsOrder(ts: seq<int>, order: seq<nat>, p: nat)
    requires p < |ts| && PositionsIn(order, |ts|) && StablyByTime(ts, order)
    requires order != [] && ts[p] < ts[order[0]]
    ensures StablyByTime(ts, Insert(ts, order, p))
  {
    forall l | 0 <= l < |order|
      ensures Before(ts, p, order[l])
    {
      if l > 0 {
        assert Before(ts, order[0], order[l]);
      }
    }
    ConsKeepsOrder(ts, p, order);
    assert Insert(ts, order, p) == [p] + order;
  }

  lemma {:induction false} HeadBeforeInserted(ts: seq<int>, order: seq<nat>, p: nat, l: nat)
    requires p < |ts| && PositionsIn(order, |ts|) && StablyByTime(ts, order) && PositionsIn(order, p)
    requires order != [] && ts[p] >= ts[order[0]]
    requires l < |Insert(ts, order[1..], p)|
    ensures Before(ts, order[0], Insert(ts, order[1..], p)[l])
  {
    var rest := order[1..];
    var x := Insert(ts, rest, p)[l];
    InsertMembers(ts, rest, p, l);
    if x != p {
      var i :| 0 <= i < |rest| && rest[i] == x;
      assert order[i + 1] == x;
      assert Before(ts, order[0], order[i + 1]);
    } else {
      assert order[0] < p;
    }
  }

  lemma {:induction false} InsertKeepsOrder(ts: seq<int>, order: seq<nat>, p: nat)
    requires p < |ts| && PositionsIn(order, |ts|) && StablyByTime(ts, order) && PositionsIn(order, p)
    ensures StablyByTime(ts, Insert(ts, order, p))
  {
    if order == [] {
    } else if ts[p] < ts[order[0]] {
      PrependKeepsOrder(ts, order, p);
    } else {
      var rest := order[1..];
      TailKeepsOrder(ts, order, p);
      InsertKeepsOrder(ts, rest, p);
      var tail := Insert(ts, rest, p);
      forall l | 0 <= l < |tail|
        ensures Before(ts, order[0], tail[l])
      {
        HeadBeforeInserted(ts, order, p, l);
      }
      ConsKeepsOrder(ts, order[0], tail);
      assert Insert(ts, order, p) == [order[0]] + tail;
    }
  }

  lemma {:induction false} InPositions(x: nat, n: nat)
    requires x in multiset(Positions(n))
    ensures x < n
  {
    assert x in Positions(n);
  }

  lemma {:induction false} SortedRowsBelow(ts: seq<int>, n: nat)
    requires n <= |ts|
    ensures PositionsIn(SortByTime(ts, n), n)
  {
    var order := SortByTime(ts, n);
    forall k | 0 <= k < |order|
      ensures order[k] < n
    {
      assert order[k] in multiset(order);
      InPositions(order[k], n);
    }
  }

  /** SortByTime is a stable sort of the rows by time. */
  lemma {:induction false} SortByTimeSorts(ts: seq<int>, n: nat)
    requires n <= |ts|
    ensures StablyByTime(ts, SortByTime(ts, n))
  {
    if n > 0 {
      SortByTimeSorts(ts, n - 1);
      SortStep(ts, n);
    }
  }

  lemma {:induction false} SortStep(ts: seq<int>, n: nat)
    requires 0 < n <= |ts|
    requires StablyByTime(ts, SortByTime(ts, n - 1))
    ensures StablyByTime(ts, SortByTime(ts, n))
  {
    var prev := SortByTime(ts, n - 1);
    SortedRowsBelow(ts, n - 1);
    InsertKeepsOrder(ts, prev, n - 1);
    assert SortByTime(ts, n) == Insert(ts, prev, n - 1);
  }

  function Permute(xs: seq<int>, order: seq<nat>): (ys: seq<int>)
    requires PositionsIn(order, |xs|)
    ensures |ys| == |order| && forall k :: 0 <= k < |order| ==> ys[k] == xs[order[k]]
  {
    seq(|order|, k requires 0 <= k < |order| => xs[order[k]])
  }

  // ---------------------------------------------------------------------
  // resample('H'): one-hour buckets closed on the left and labelled by
  // their start

  const SECONDS_PER_HOUR: int := 3600

  /** The bucket of a time in seconds; division with a positive divisor
      rounds down, also before the epoch. */
  function HourOf(t: int): int {
    t / SECONDS_PER_HOUR
  }

  lemma {:induction false} HourOfBounds(t: int)
    ensures HourOf(t) * SECONDS_PER_HOUR <= t < (HourOf(t) + 1) * SECONDS_PER_HOUR
  {
  }

  lemma {:induction false} HourMonotone(a: int, b: int)
    requires a <= b
    ensures HourOf(a) <= HourOf(b)
  {
    HourOfBounds(a);
    HourOfBounds(b);
  }

  function Earliest(ts: seq<int>): (t: int)
    requires ts != []
    ensures t in ts && forall k :: 0 <= k < |ts| ==> t <= ts[k]
  {
    if |ts| == 1 then ts[0]
    else
      var rest := Earliest(ts[1..]);
      assert forall k :: 1 <= k < |ts| ==> ts[k] == ts[1..][k - 1];
      if ts[0] <= rest then ts[0] else rest
  }

  function Latest(ts: seq<int>): (t: int)
    requires ts != []
    ensures t in ts && forall k :: 0 <= k < |ts| ==> ts[k] <= t
  {
    if |ts| == 1 then ts[0]
    else
      var rest := Latest(ts[1..]);
      assert forall k :: 1 <= k < |ts| ==> ts[k] == ts[1..][k - 1];
      if ts[0] >= rest then ts[0] else rest
  }

  /** The hour of the first sample; the output has one row per hour from
      it to the hour of the last sample. */
  function FirstHour(ts: seq<int>): int
    requires ts != []
  {
    HourOf(Earliest(ts))
  }

  function HourCount(ts: seq<int>): (hours: nat)
    requires ts != []
    ensures forall k :: 0 <= k < |ts| ==> FirstHour(ts) <= HourOf(ts[k]) < FirstHour(ts) + hours
    ensures exists k :: 0 <= k < |ts| && HourOf(ts[k]) == FirstHour(ts) + hours - 1
  {
    var lo, hi := Earliest(ts), Latest(ts);
    HourMonotone(lo, hi);
    assert forall k :: 0 <= k < |ts| ==> HourOf(lo) <= HourOf(ts[k]) <= HourOf(hi) by {
      forall k | 0 <= k < |ts|
        ensures HourOf(lo) <= HourOf(ts[k]) <= HourOf(hi)
      {
        HourMonotone(lo, ts[k]);
        HourMonotone(ts[k], hi);
      }
    }
    HourOf(hi) - HourOf(lo) + 1
  }

  /** The values of the rows whose time falls in hour h, in the order given. */
  function InHour(ts: seq<int>, xs: seq<int>, h: int): (b: seq<int>)
    requires |ts| == |xs|
    ensures |b| <= |xs|
  {
    if ts == [] then []
    else (if HourOf(ts[0]) == h then [xs[0]] else []) + InHour(ts[1..], xs[1..], h)
  }

  /** The counts of one column, hour by hour. */
  function HourlyColumn(ts: seq<int>, xs: seq<int>, h0: int, hours: nat): (counts: seq<int>)
    requires |ts| == |xs|
    ensures |counts| == hours
    ensures forall j :: 0 <= j < hours ==> counts[j] == RisingEdges(InHour(ts, xs, h0 + j))
  {
    seq(hours, j requires 0 <= j < hours => RisingEdges(InHour(ts, xs, h0 + j)))
  }

  function HourStarts(h0: int, hours: nat): (index: seq<int>)
    ensures |index| == hours
    ensures forall j :: 0 <= j < hours ==> index[j] == (h0 + j) * SECONDS_PER_HOUR
  {
    seq(hours, j requires 0 <= j < hours => (h0 + j) * SECONDS_PER_HOUR)
  }

  /** Times that never decrease, as a time-ordered table's index. */
  predicate Ascending(ts: seq<int>) {
    forall k, l :: 0 <= k < l < |ts| ==> ts[k] <= ts[l]
  }

  /** How many samples fall before hour h. */
  function Below(ts: seq<int>, h: int): (a: nat)
    ensures a <= |ts|
  {
    if ts == [] then 0
    else (if HourOf(ts[0]) < h then 1 else 0) + Below(ts[1..], h)
  }

  lemma {:induction false} BelowNone(ts: seq<int>, h: int)
    requires forall k :: 0 <= k < |ts| ==> h <= HourOf(ts[k])
    ensures Below(ts, h) == 0
  {
    if ts != [] {
      assert forall k :: 0 <= k < |ts| - 1 ==> ts[1..][k] == ts[k + 1];
      BelowNone(ts[1..], h);
    }
  }

  lemma {:induction false} BelowAll(ts: seq<int>, h: int)
    requires forall k :: 0 <= k < |ts| ==> HourOf(ts[k]) < h
    ensures Below(ts, h) == |ts|
  {
    if ts != [] {
      assert forall k :: 0 <= k < |ts| - 1 ==> ts[1..][k] == ts[k + 1];
      BelowAll(ts[1..], h);
    }
  }

  lemma {:induction false} BelowMonotone(ts: seq<int>, h: int, h': int)
    requires h <= h'
    ensures Below(ts, h) <= Below(ts, h')
  {
    if ts != [] {
      BelowMonotone(ts[1..], h, h');
    }
  }

  lemma {:induction false} AscendingTail(ts: seq<int>)
    requires ts != [] && Ascending(ts)
    ensures Ascending(ts[1..])
    ensures forall k :: 0 <= k < |ts| - 1 ==> HourOf(ts[0]) <= HourOf(ts[1..][k])
  {
    var tl := ts[1..];
    forall k, l | 0 <= k < l < |tl|
      ensures tl[k] <= tl[l]
    {
      assert tl[k] == ts[k + 1] && tl[l] == ts[l + 1];
    }
    forall k | 0 <= k < |tl|
      ensures HourOf(ts[0]) <= HourOf(tl[k])
    {
      assert tl[k] == ts[k + 1];
      HourMonotone(ts[0], ts[k + 1]);
    }
  }

  /** In time order, hour h's samples are one run of consecutive rows:
      the rows after every sample of an earlier hour and before every
      sample of a later one. */
  lemma {:induction false} InHourIsSlice(ts: seq<int>, xs: seq<int>, h: int)
    requires |ts| == |xs| && Ascending(ts)
    ensures Below(ts, h) <= Below(ts, h + 1)
    ensures InHour(ts, xs, h) == xs[Below(ts, h)..Below(ts, h + 1)]
  {
    BelowMonotone(ts, h, h + 1);
    if ts != [] {
      var tl, xl := ts[1..], xs[1..];
      AscendingTail(ts);
      InHourIsSlice(tl, xl, h);
      var a, b := Below(tl, h), Below(tl, h + 1);
      if HourOf(ts[0]) < h {
        assert InHour(ts, xs, h) == xl[a..b];
        assert xl[a..b] == xs[1 + a..1 + b];
      } else if HourOf(ts[0]) == h {
        BelowNone(tl, h);
        assert InHour(ts, xs, h) == [xs[0]] + xl[..b];
        assert [xs[0]] + xl[..b] == xs[..1 + b];
      } else {
        BelowNone(tl, h + 1);
        assert InHour(ts, xs, h) == [];
      }
    }
  }

  /** The buckets of hours h0 .. h0 + hours - 1, one after another. */
  function Buckets(ts: seq<int>, xs: seq<int>, h0: int, hours: nat): seq<int>
    requires |ts| == |xs|
  {
    if hours == 0 then []
    else Buckets(ts, xs, h0, hours - 1) + InHour(ts, xs, h0 + hours - 1)
  }

  lemma {:induction false} BucketsAreSlice(ts: seq<int>, xs: seq<int>, h0: int, hours: nat)
    requires |ts| == |xs| && Ascending(ts)
    ensures Below(ts, h0) <= Below(ts, h0 + hours)
    ensures Buckets(ts, xs, h0, hours) == xs[Below(ts, h0)..Below(ts, h0 + hours)]
  {
    if hours > 0 {
      var h := h0 + hours - 1;
      assert Buckets(ts, xs, h0, hours) == Buckets(ts, xs, h0, hours - 1) + InHour(ts, xs, h);
      BucketsAreSlice(ts, xs, h0, hours - 1);
      InHourIsSlice(ts, xs, h);
      AdjacentSlices(xs, Below(ts, h0), Below(ts, h), Below(ts, h + 1));
    }
  }

  lemma {:induction false} AdjacentSlices(xs: seq<int>, a: nat, b: nat, c: nat)
    requires a <= b <= c <= |xs|
    ensures xs[a..b] + xs[b..c] == xs[a..c]
  {
    assert forall k :: 0 <= k < c - a ==> (xs[a..b] + xs[b..c])[k] == xs[a + k];
  }

  /** In time order, the hours from the first sample's to the last one's
      split the series into its buckets: every sample lands in exactly one
      hour, and the buckets keep the samples' order. */
  lemma {:induction false} BucketsPartition(ts: seq<int>, xs: seq<int>, h0: int, hours: nat)
    requires |ts| == |xs| && Ascending(ts)
    requires forall k :: 0 <= k < |ts| ==> h0 <= HourOf(ts[k]) < h0 + hours
    ensures Buckets(ts, xs, h0, hours) == xs
  {
    BelowNone(ts, h0);
    BelowAll(ts, h0 + hours);
    BucketsAreSlice(ts, xs, h0, hours);
    assert xs[0..|xs|] == xs;
  }

  /** The rows of the table in time order. */
  function TimeOrder(f: Frame): (order: seq<nat>)
    ensures PositionsIn(order, |f.index|) && |order| == |f.index|
  {
    var order := SortByTime(f.index, |f.index|);
    assert |order| == |multiset(order)| == |multiset(Positions(|f.index|))| == |f.index|;
    order
  }

  /** Column n's values in hour h, in time order: the series the lambda
      receives. */
  function Bucket(f: Frame, n: string, h: int): seq<int>
    requires f.Valid() && n in f.columns && f.columns[n].IntCol?
  {
    var order := TimeOrder(f);
    InHour(Permute(f.index, order), Permute(f.columns[n].ints, order), h)
  }

  /** The hourly counts of column n. */
  function ResampledColumn(f: Frame, n: string): (c: Column)
    requires f.Valid() && f.index != [] && n in f.columns && f.columns[n].IntCol?
    ensures c.IntCol? && |c.ints| == HourCount(f.index)
  {
    var order := TimeOrder(f);
    IntCol(HourlyColumn(Permute(f.index, order), Permute(f.columns[n].ints, order),
                        FirstHour(f.index), HourCount(f.index)))
  }

  /** `df.resample('H').apply(lambda x: (x.eq(1) & x.shift().ne(1)).sum())` */
  function Resample(f: Frame): (g: Frame)
    requires f.Valid() && AllInt(f)
    ensures g.Valid() && AllInt(g) && g.columns.Keys == f.columns.Keys
  {
    if f.index == [] then Frame([], map n | n in f.columns :: IntCol([]))
    else Frame(HourStarts(FirstHour(f.index), HourCount(f.index)),
               map n | n in f.columns :: ResampledColumn(f, n))
  }

  /** One output row per hour, consecutive from the first sample's hour
      to the last sample's, and every sample falls in one of them. */
  lemma {:induction false} ResampleHours(f: Frame)
    requires f.Valid() && AllInt(f) && f.index != []
    ensures var g := Resample(f);
      |g.index| >= 1 &&
      (forall j :: 0 <= j < |g.index| ==> g.index[j] == (FirstHour(f.index) + j) * SECONDS_PER_HOUR) &&
      (forall k :: 0 <= k < |f.index| ==>
        exists j :: 0 <= j < |g.index| && g.index[j] <= f.index[k] < g.index[j] + SECONDS_PER_HOUR)
  {
    var h0, hours := FirstHour(f.index), HourCount(f.index);
    var index := HourStarts(h0, hours);
    assert Resample(f).index == index;
    forall k | 0 <= k < |f.index|
      ensures exists j :: 0 <= j < hours && index[j] <= f.index[k] < index[j] + SECONDS_PER_HOUR
    {
      var j := HourOf(f.index[k]) - h0;
      HourOfBounds(f.index[k]);
      assert index[j] == HourOf(f.index[k]) * SECONDS_PER_HOUR;
    }
  }

  lemma {:induction false} HourlyColumnAt(ts: seq<int>, xs: seq<int>, h0: int, hours: nat, j: nat)
    requires |ts| == |xs| && j < hours
    ensures HourlyColumn(ts, xs, h0, hours)[j] == RisingEdges(InHour(ts, xs, h0 + j))
  {
  }

  /** Each count is the number of rising edges among that hour's samples
      of the column, in time order. */
  lemma {:induction false} ResampleCountsEdges(f: Frame, n: string, j: nat)
    requires f.Valid() && AllInt(f) && f.index != [] && n in f.columns
    requires j < |Resample(f).index|
    ensures Resample(f).columns[n].ints[j] == RisingEdges(Bucket(f, n, FirstHour(f.index) + j))
  {
    var order := TimeOrder(f);
    var h0, hours := FirstHour(f.index), HourCount(f.index);
    var c := ResampledColumn(f, n);
    assert Resample(f).index == HourStarts(h0, hours);
    assert j < hours;
    assert Resample(f).columns[n] == c;
    var ts, xs := Permute(f.index, order), Permute(f.columns[n].ints, order);
    assert c.ints == HourlyColumn(ts, xs, h0, hours);
    assert Bucket(f, n, h0 + j) == InHour(ts, xs, h0 + j);
    HourlyColumnAt(ts, xs, h0, hours, j);
  }

  /** The table's times, sorted by resample. */
  lemma {:induction false} TimeOrderAscending(f: Frame)
    ensures Ascending(Permute(f.index, TimeOrder(f)))
  {
    var order := TimeOrder(f);
    var ts := Permute(f.index, order);
    SortByTimeSorts(f.index, |f.index|);
    forall k, l | 0 <= k < l < |ts|
      ensures ts[k] <= ts[l]
    {
      assert Before(f.index, order[k], order[l]);
    }
  }

  /** Hour h's bucket of column n is the run of time-ordered rows from
      the first sample at or after h's start to the last one before the
      next hour's; over the output's hours the buckets, one after
      another, are the whole column in time order. */
  lemma {:induction false} BucketsCoverColumn(f: Frame, n: string, h: int)
    requires f.Valid() && AllInt(f) && f.index != [] && n in f.columns
    ensures var order := TimeOrder(f);
      var ts, xs := Permute(f.index, order), Permute(f.columns[n].ints, order);
      Below(ts, h) <= Below(ts, h + 1) &&
      Bucket(f, n, h) == xs[Below(ts, h)..Below(ts, h + 1)] &&
      Buckets(ts, xs, FirstHour(f.index), HourCount(f.index)) == xs
  {
    var order := TimeOrder(f);
    var ts, xs := Permute(f.index, order), Permute(f.columns[n].ints, order);
    var h0, hours := FirstHour(f.index), HourCount(f.index);
    TimeOrderAscending(f);
    InHourIsSlice(ts, xs, h);
    forall k | 0 <= k < |ts|
      ensures h0 <= HourOf(ts[k]) < h0 + hours
    {
      assert ts[k] == f.index[order[k]];
    }
    BucketsPartition(ts, xs, h0, hours);
  }

  // ---------------------------------------------------------------------
  // The flag: df[df.columns].gt(max).any(1).astype(int)

  predicate CycledTooOften(g: Frame, maxCycles: int, j: nat)
    requires g.Valid() && AllInt(g) && j < |g.index|
  {
    exists n :: n in g.columns && g.columns[n].ints[j] > maxCycles
  }

  function CycleFlags(g: Frame, maxCycles: int): (c: Column)
    requires g.Valid() && AllInt(g)
    ensures c.IntCol? && |c.ints| == |g.index|
    ensures forall j :: 0 <= j < |g.index| ==> c.ints[j] == 0 || c.ints[j] == 1
  {
    IntCol(seq(|g.index|, j requires 0 <= j < |g.index| => if CycledTooOften(g, maxCycles, j) then 1 else 0))
  }

  // ---------------------------------------------------------------------
  // The rule

  /** What one cycling rule's `apply` does, read off its body. */
  datatype CyclingRule = CyclingRule(
    requirements: seq<Requirement>, // the `for col in [...]` checks
    modes: seq<Derivation>,         // the helper columns, in assignment order
    maxCycles: int,                 // plant_os_max, boiler_os_max or boiler_stage_os_max
    flag: string,                   // "fcN_flag"
    troubleshoot: bool)
  {
    predicate WellFormed() {
      Distinct(HelperNames(modes)) && flag !in HelperNames(modes)
    }

    function Helpers(): seq<string> {
      HelperNames(modes)
    }
  }

  /** After `hourly = rule.apply(df)`: the caller's table, which keeps the
      helper columns because `df` was rebound before the `del`, and the
      hourly table returned, or what was raised. */
  datatype Cycled = Cycled(caller: Frame, returned: Result<Frame>)

  function Evaluate(f: Frame, r: CyclingRule): (c: Cycled)
    requires f.Valid() && r.WellFormed()
    ensures c.caller.Valid() && c.caller.index == f.index
    ensures c.returned.Ok? ==> c.returned.value.Valid()
  {
    match CheckAll(f, r.requirements)
    case Some(fault) => Cycled(f, Err(fault))
    case None =>
      var run := RunDerivations(f, r.modes);
      Cycled(run.frame, if run.raised.Some? then Err(run.raised.value) else CountCycles(run.frame, r))
  }

  /** `df = df.astype(int)`, then the hourly table with its flag. */
  function CountCycles(g: Frame, r: CyclingRule): (res: Result<Frame>)
    requires g.Valid() && r.WellFormed()
    requires forall h :: h in r.Helpers() ==> h in g.columns
    ensures res.Ok? ==> res.value.Valid()
  {
    match CastAll(g)
    case Err(fault) => Err(fault)
    case Ok(ints) => Ok(FlagHours(Resample(ints), r))
  }

  /** `df["fcN_flag"] = ...`, then the helpers deleted unless troubleshooting. */
  function FlagHours(hourly: Frame, r: CyclingRule): (out: Frame)
    requires hourly.Valid() && AllInt(hourly) && r.WellFormed()
    ensures out.Valid() && out.index == hourly.index
    ensures out.columns.Keys ==
      if r.troubleshoot then hourly.columns.Keys + {r.flag}
      else hourly.columns.Keys - (set h | h in r.Helpers()) + {r.flag}
    ensures r.flag in out.columns && out.columns[r.flag] == CycleFlags(hourly, r.maxCycles)
  {
    var flagged := hourly.Put(r.flag, CycleFlags(hourly, r.maxCycles));
    if r.troubleshoot then flagged else flagged.Drop(set h | h in r.Helpers())
  }

  /** What the caller is left with: its table gains the helper columns
      and keeps every other column, because `df` is rebound before the
      `del` statements run. */
  lemma {:induction false} CallerKeepsHelpers(f: Frame, r: CyclingRule)
    requires f.Valid() && r.WellFormed()
    requires Evaluate(f, r).returned.Ok?
    ensures var c := Evaluate(f, r);
      c.caller.columns.Keys == f.columns.Keys + (set h | h in r.Helpers()) &&
      (forall n :: n in f.columns && n !in r.Helpers() ==> c.caller.columns[n] == f.columns[n])
  {
    CallerIsRun(f, r);
    RunKeys(f, r.modes);
  }

  /** What comes back: the hourly table has a column for every column of
      the caller's table and the flag, without the helpers unless
      troubleshooting. */
  lemma {:induction false} ReturnedColumns(f: Frame, r: CyclingRule)
    requires f.Valid() && r.WellFormed()
    requires Evaluate(f, r).returned.Ok?
    ensures var c := Evaluate(f, r);
      c.returned.value.columns.Keys ==
        if r.troubleshoot then c.caller.columns.Keys + {r.flag}
        else c.caller.columns.Keys - (set h | h in r.Helpers()) + {r.flag}
  {
    EvaluateOk(f, r);
  }

  /** The success path: the int cast of the caller's table succeeded and
      the hourly table is its resampled counts, flagged. */
  lemma {:induction false} EvaluateOk(f: Frame, r: CyclingRule)
    requires f.Valid() && r.WellFormed()
    requires Evaluate(f, r).returned.Ok?
    ensures var c := Evaluate(f, r);
      CastAll(c.caller).Ok? && CastAll(c.caller).value.index == f.index &&
      c.returned.value == FlagHours(Resample(CastAll(c.caller).value), r)
  {
    CallerIsRun(f, r);
  }

  /** On success the validation passed, every helper was assigned, and the
      caller holds the table the assignments left. */
  lemma {:induction false} CallerIsRun(f: Frame, r: CyclingRule)
    requires f.Valid() && r.WellFormed()
    requires Evaluate(f, r).returned.Ok?
    ensures CheckAll(f, r.requirements).None?
    ensures var run := RunDerivations(f, r.modes);
      run.raised.None? && Evaluate(f, r) == Cycled(run.frame, CountCycles(run.frame, r))
  {
  }

  /** Some column of the table starts more than maxCycles times in hour h. */
  predicate SomeColumnCycled(ints: Frame, h: int, maxCycles: int)
    requires ints.Valid() && AllInt(ints)
  {
    exists n :: n in ints.columns && RisingEdges(Bucket(ints, n, h)) > maxCycles
  }

  /** The flag of hour j is 1 exactly when some column of the int-cast
      table (the caller's columns and the helpers alike) has more rising
      edges in that hour than the configured maximum. */
  lemma {:induction false} FlagMeansSomeColumnCycled(ints: Frame, r: CyclingRule, j: nat)
    requires ints.Valid() && AllInt(ints) && r.WellFormed() && ints.index != []
    ensures var g := FlagHours(Resample(ints), r);
      r.flag in g.columns && g.columns[r.flag].IntCol? && |g.columns[r.flag].ints| == |g.index| &&
      (j < |g.index| ==>
        (g.columns[r.flag].ints[j] == 1 <==>
          SomeColumnCycled(ints, FirstHour(ints.index) + j, r.maxCycles)))
  {
    var hourly := Resample(ints);
    if j < |hourly.index| {
      forall n | n in ints.columns
        ensures hourly.columns[n].ints[j] == RisingEdges(Bucket(ints, n, FirstHour(ints.index) + j))
      {
        ResampleCountsEdges(ints, n, j);
      }
    }
  }

  /** The counts of one column, one hour at a time. */
  method HourlyEdgeCounts(ts: seq<int>, xs: seq<int>, h0: int, hours: nat) returns (counts: seq<int>)
    requires |ts| == |xs|
    ensures counts == HourlyColumn(ts, xs, h0, hours)
  {
    counts := [];
    var j := 0;
    while j < hours
      invariant 0 <= j <= hours
      invariant counts == HourlyColumn(ts, xs, h0, j)
    {
      var n := CountRisingEdges(InHour(ts, xs, h0 + j));
      counts := counts + [n];
      j := j + 1;
    }
  }

  /** The resampled table, column by column. */
  method ResampleCounts(f: Frame) returns (g: Frame)
    requires f.Valid() && AllInt(f)
    ensures g == Resample(f)
  {
    if f.index == [] {
      return Frame([], map n | n in f.columns :: IntCol([]));
    }
    var order := TimeOrder(f);
    var ts := Permute(f.index, order);
    var h0, hours := FirstHour(f.index), HourCount(f.index);
    var todo := f.columns.Keys;
    var counted := map[];
    while todo != {}
      invariant todo <= f.columns.Keys
      invariant counted.Keys == f.columns.Keys - todo
      invariant forall n :: n in counted ==> counted[n] == ResampledColumn(f, n)
      decreases todo
    {
      var n :| n in todo;
      var counts := HourlyEdgeCounts(ts, Permute(f.columns[n].ints, order), h0, hours);
      counted := counted[n := IntCol(counts)];
      todo := todo - {n};
    }
    assert counted == map n | n in f.columns :: ResampledColumn(f, n);
    g := Frame(HourStarts(h0, hours), counted);
  }

  /** `hourly = rule.apply(df)` */
  method Apply(df: DataFrame, r: CyclingRule) returns (hourly: Result<DataFrame>)
    requires df.Valid() && r.WellFormed()
    modifies df
    ensures df.Valid()
    ensures var c := Evaluate(old(df.Snapshot()), r);
      df.Snapshot() == c.caller &&
      (hourly.Err? <==> c.returned.Err?) &&
      (hourly.Err? ==> hourly.fault == c.returned.fault) &&
      (hourly.Ok? ==> fresh(hourly.value) && hourly.value.Valid() && hourly.value.Snapshot() == c.returned.value)
  {
    var failed := CheckAll(df.Snapshot(), r.requirements);
    if failed.Some? {
      return Err(failed.value);
    }
    failed := RunDerivationsInPlace(df, r.modes);
    if failed.Some? {
      return Err(failed.value);
    }
    var cast := CastAll(df.Snapshot());
    if cast.Err? {
      return Err(cast.fault);
    }
    var counts := ResampleCounts(cast.value);
    var out := new DataFrame(counts);
    out.SetItem(r.flag, CycleFlags(counts, r.maxCycles));
    if !r.troubleshoot {
      out.DelItems(r.Helpers());
    }
    return Ok(out);
  }
}
