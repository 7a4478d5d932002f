/** The first divergence of a run: the earliest long enough run of anomalous depths. */
module Divergence {
  import opened Wrappers
  import opened Sorting

  datatype Stats = Stats(median: real, mad: real, mean: real, std: real)

  /** The absolute value of a robust z. */
  datatype Score = Finite(z: real) | Infinite

  predicate AtLeast(s: Score, threshold: real) { s.Infinite? || s.z >= threshold }

  predicate Above(s: Score, t: Score) { t.Finite? && (s.Infinite? || s.z > t.z) }

  function Abs(x: real): (r: real)
    ensures r >= 0.0 && (r == x || r == -x)
  {
    if x < 0.0 then -x else x
  }

  const EPSILON: real := 0.000000000001

  function AbsoluteRobustZ(x: real, s: Stats): (az: Score)
    ensures az.Finite? ==> az.z >= 0.0
  {
    var sigma := 1.4826 * s.mad;
    if sigma > EPSILON then Finite(Abs((x - s.median) / sigma))
    else if s.std > EPSILON then Finite(Abs((x - s.mean) / s.std))
    else if Abs(x - s.median) <= EPSILON then Finite(0.0)
    else Infinite
  }

  /** What a verdict means: so many spreads away from the centre or, without any spread, anywhere
      else than at the median. */
  lemma AnomalousMeans(x: real, s: Stats, t: real)
    ensures AtLeast(AbsoluteRobustZ(x, s), t) <==>
      if 1.4826 * s.mad > EPSILON then Abs(x - s.median) >= t * (1.4826 * s.mad)
      else if s.std > EPSILON then Abs(x - s.mean) >= t * s.std
      else Abs(x - s.median) > EPSILON || t <= 0.0
  {
    var sigma := 1.4826 * s.mad;
    if sigma > EPSILON {
      QuotientAtLeast(x - s.median, sigma, t);
    } else if s.std > EPSILON {
      QuotientAtLeast(x - s.mean, s.std, t);
    }
  }

  lemma QuotientAtLeast(d: real, s: real, t: real)
    requires s > 0.0
    ensures Abs(d / s) >= t <==> Abs(d) >= t * s
  {
    var q := d / s;
    assert q * s == d;
    assert Abs(d) == Abs(q) * s;
    if Abs(q) >= t {
      assert (Abs(q) - t) * s >= 0.0;
    } else {
      assert (t - Abs(q)) * s > 0.0;
    }
  }

  const METRICS: seq<string> := [
    "cosine_to_exact_approved_activation",
    "relative_l2_to_exact_approved_activation",
    "projection_delta_from_exact_approved",
    "projection_on_approved_direction"]

  /** An event's measurements, in order: the depth, and the value of each metric. */
  type Event = seq<(int, map<string, real>)>

  type Baseline = map<int, map<string, Stats>>

  datatype Row = Row(depth: int, metric: string, az: Score)

  // ---- The rows of the report ----

  function MetricRows(depth: int, m: map<string, real>, stats: map<string, Stats>, metrics: seq<string>): (r: seq<Row>)
    ensures forall x :: x in r ==> x.depth == depth && (x.az.Finite? ==> x.az.z >= 0.0)
  {
    if metrics == [] then []
    else
      var front, metric := metrics[..|metrics| - 1], metrics[|metrics| - 1];
      var r := MetricRows(depth, m, stats, front);
      if metric in m && metric in stats then r + [Row(depth, metric, AbsoluteRobustZ(m[metric], stats[metric]))] else r
  }

  function StatsAt(b: Baseline, depth: int): (r: map<string, Stats>) { if depth in b then b[depth] else map[] }

  function EventRows(b: Baseline, e: Event): (r: seq<Row>)
    ensures forall x :: x in r ==> x.az.Finite? ==> x.az.z >= 0.0
  {
    if e == [] then []
    else
      var (depth, m) := e[|e| - 1];
      EventRows(b, e[..|e| - 1]) + MetricRows(depth, m, StatsAt(b, depth), METRICS)
  }

  function Rows(b: Baseline, events: seq<Event>): (r: seq<Row>)
    ensures forall x :: x in r ==> x.az.Finite? ==> x.az.z >= 0.0
  {
    if events == [] then [] else Rows(b, events[..|events| - 1]) + EventRows(b, events[|events| - 1])
  }

  /** The depth's measurement has this metric, and the baseline has statistics for it there. */
  ghost predicate Measured(b: Baseline, e: Event, depth: int, metric: string, x: real) {
    && (exists m :: (depth, m) in e && metric in m && m[metric] == x)
    && depth in b && metric in b[depth]
    && metric in {
      "cosine_to_exact_approved_activation", "relative_l2_to_exact_approved_activation",
      "projection_delta_from_exact_approved", "projection_on_approved_direction"}
  }

  lemma {:induction false} MetricRowsMean(
      depth: int, m: map<string, real>, stats: map<string, Stats>, metrics: seq<string>, x: Row)
    ensures x in MetricRows(depth, m, stats, metrics) <==>
      x.depth == depth && x.metric in metrics && x.metric in m && x.metric in stats &&
      x.az == AbsoluteRobustZ(m[x.metric], stats[x.metric])
  {
    hide AbsoluteRobustZ;
    if metrics != [] {
      var front := metrics[..|metrics| - 1];
      MetricRowsMean(depth, m, stats, front, x);
      assert metrics == front + [metrics[|metrics| - 1]];
    }
  }

  lemma {:induction false} EventRowsMean(b: Baseline, e: Event, x: Row)
    ensures x in EventRows(b, e) <==>
      exists v :: Measured(b, e, x.depth, x.metric, v) && x.az == AbsoluteRobustZ(v, b[x.depth][x.metric])
  {
    hide AbsoluteRobustZ, MetricRows;
    if e != [] {
      var n := |e| - 1;
      var front := e[..n];
      var (depth, m) := e[n];
      EventRowsMean(b, front, x);
      MetricRowsMean(depth, m, StatsAt(b, depth), METRICS, x);
      assert e == front + [e[n]];
      MeasuredSnoc(b, front, depth, m, x.depth, x.metric);
    }
  }

  lemma MeasuredSnoc(b: Baseline, e: Event, depth: int, m: map<string, real>, d: int, metric: string)
    ensures forall v :: Measured(b, e + [(depth, m)], d, metric, v) <==>
      Measured(b, e, d, metric, v) ||
      (d == depth && metric in METRICS && metric in m && m[metric] == v && d in b && metric in b[d])
  {
    var e' := e + [(depth, m)];
    forall v
      ensures Measured(b, e', d, metric, v) <==>
        Measured(b, e, d, metric, v) ||
        (d == depth && metric in METRICS && metric in m && m[metric] == v && d in b && metric in b[d])
    {
      assert (d, m) in e' || d != depth;
      forall l | (d, l) in e ensures (d, l) in e' {
      }
    }
  }

  /** The report has a row exactly for every value of one of the four metrics that some event gives
      at a depth and the baseline knows there, with its score. */
  lemma {:induction false} RowsMean(b: Baseline, events: seq<Event>, x: Row)
    ensures x in Rows(b, events) <==>
      exists e, v ::
        e in events && Measured(b, e, x.depth, x.metric, v) && x.az == AbsoluteRobustZ(v, b[x.depth][x.metric])
  {
    hide AbsoluteRobustZ, EventRows, Measured;
    if events != [] {
      var n := |events| - 1;
      RowsMean(b, events[..n], x);
      EventRowsMean(b, events[n], x);
      assert events == events[..n] + [events[n]];
    }
  }

  /** What every depth's recorded maximum is: an observed depth has one of its own scores, or the
      initial zero, and none of its scores is above it. */
  ghost predicate Maxima(rows: seq<Row>, top: map<int, Score>) {
    && (forall d :: d in top <==> exists x :: x in rows && x.depth == d)
    && (forall x :: x in rows && x.depth in top ==> !Above(x.az, top[x.depth]))
    && (forall d :: d in top ==> top[d] == Finite(0.0) || exists x :: x in rows && x.depth == d && x.az == top[d])
  }

  /** depth_max after one more score: reading an absent depth enters it as zero. */
  function Raised(top: map<int, Score>, x: Row): (r: map<int, Score>) {
    var now := if x.depth in top then top[x.depth] else Finite(0.0);
    top[x.depth := if Above(x.az, now) then x.az else now]
  }

  lemma MaximaStep(rows: seq<Row>, top: map<int, Score>, x: Row)
    requires Maxima(rows, top)
    ensures Maxima(rows + [x], Raised(top, x))
  {
    var more, top' := rows + [x], Raised(top, x);
    assert x in more && forall y :: y in more <==> y in rows || y == x;
    forall d ensures d in top' <==> exists y :: y in more && y.depth == d {
      if d in top {
        var y :| y in rows && y.depth == d;
        assert y in more;
      }
    }
    forall d | d in top'
      ensures top'[d] == Finite(0.0) || exists y :: y in more && y.depth == d && y.az == top'[d]
    {
      if d in top && top'[d] == top[d] && top[d] != Finite(0.0) {
        var y :| y in rows && y.depth == d && y.az == top[d];
        assert y in more;
      }
    }
  }

  lemma NothingObserved()
    ensures Maxima([], map[])
  {
  }

  /** The scoring of one measurement: one row for each metric that has a value and a baseline. */
  method ScoreMeasurement(
      depth: int, m: map<string, real>, stats: map<string, Stats>, rows0: seq<Row>, top0: map<int, Score>)
    returns (rows: seq<Row>, top: map<int, Score>)
    requires Maxima(rows0, top0)
    ensures rows == rows0 + MetricRows(depth, m, stats, METRICS) && Maxima(rows, top)
  {
    hide Maxima, AbsoluteRobustZ, Raised;
    rows, top := rows0, top0;
    for k := 0 to |METRICS|
      invariant rows == rows0 + MetricRows(depth, m, stats, METRICS[..k]) && Maxima(rows, top)
    {
      var metric := METRICS[k];
      assert METRICS[..k + 1][..k] == METRICS[..k];
      if metric in m && metric in stats {
        var x := Row(depth, metric, AbsoluteRobustZ(m[metric], stats[metric]));
        MaximaStep(rows, top, x);
        rows, top := rows + [x], Raised(top, x);
      }
    }
    assert METRICS[..|METRICS|] == METRICS;
  }

  /** The scoring loops: every report row, and the maximum of each depth. */
  method ScoreEvents(b: Baseline, events: seq<Event>) returns (rows: seq<Row>, top: map<int, Score>)
    ensures rows == Rows(b, events)
    ensures Maxima(rows, top)
  {
    hide Maxima, MetricRows, StatsAt;
    NothingObserved();
    rows, top := [], map[];
    for i := 0 to |events|
      invariant rows == Rows(b, events[..i]) && Maxima(rows, top)
    {
      var e := events[i];
      ghost var before := rows;
      for j := 0 to |e|
        invariant rows == before + EventRows(b, e[..j]) && Maxima(rows, top)
      {
        var (depth, m) := e[j];
        rows, top := ScoreMeasurement(depth, m, StatsAt(b, depth), rows, top);
        assert e[..j + 1][..j] == e[..j];
      }
      assert e[..|e|] == e && events[..i + 1][..i] == events[..i];
    }
    assert events[..|events|] == events;
  }

  /** A depth is anomalous exactly when one of its report rows is, whatever the threshold. */
  lemma AnomalousDepthHasAnomalousRow(b: Baseline, events: seq<Event>, top: map<int, Score>, d: int, threshold: real)
    requires Maxima(Rows(b, events), top)
    ensures (d in top && AtLeast(top[d], threshold)) <==>
      exists x :: x in Rows(b, events) && x.depth == d && AtLeast(x.az, threshold)
  {
    var rows := Rows(b, events);
    if d in top && AtLeast(top[d], threshold) {
      if top[d] == Finite(0.0) {
        var x :| x in rows && x.depth == d;
        assert AtLeast(x.az, threshold);
      } else {
        var x :| x in rows && x.depth == d && x.az == top[d];
      }
    }
    if x :| x in rows && x.depth == d && AtLeast(x.az, threshold) {
      assert d in top && !Above(x.az, top[d]);
    }
  }

  // ---- Runs of anomalous depths ----

  /** All of hot[i..j] is anomalous. */
  predicate Window(hot: seq<bool>, i: int, j: int) {
    0 <= i < j <= |hot| && forall k :: i <= k < j ==> hot[k]
  }

  /** `need` adjacent anomalous depths from the i-th on. */
  predicate WindowOf(hot: seq<bool>, i: int, need: int) { Window(hot, i, i + need) }

  /** hot[i..j] is anomalous and cannot be extended on either side. */
  predicate MaximalRun(hot: seq<bool>, i: int, j: int) {
    Window(hot, i, j) && (i > 0 ==> !hot[i - 1]) && (j < |hot| ==> !hot[j])
  }

  ghost predicate NoneBefore(hot: seq<bool>, need: int, n: int) {
    forall i, j :: MaximalRun(hot, i, j) && j - i >= need ==> n <= i
  }

  ghost predicate FirstLongRun(hot: seq<bool>, need: int, i: int, j: int) {
    MaximalRun(hot, i, j) && j - i >= need && NoneBefore(hot, need, i)
  }

  function Needed(minConsecutive: int): (n: int)
    ensures n >= 1
  {
    if minConsecutive > 1 then minConsecutive else 1
  }

  /** The answer that the report should give: the first long enough run, or none where there is none. */
  ghost predicate IsAnswer(depths: seq<int>, hot: seq<bool>, need: int, first: Option<int>, region: seq<int>)
    requires |depths| == |hot|
  {
    match first
    case None => region == [] && NoneBefore(hot, need, |hot|)
    case Some(d) => exists i, j :: FirstLongRun(hot, need, i, j) && depths[i] == d && depths[i..j] == region
  }

  function Hot(depths: seq<int>, top: map<int, Score>, threshold: real): (hot: seq<bool>)
    requires forall i :: 0 <= i < |depths| ==> depths[i] in top
    ensures |hot| == |depths|
  {
    seq(|depths|, i requires 0 <= i < |depths| => AtLeast(top[depths[i]], threshold))
  }

  /** Every window lies in a maximal run. */
  lemma {:induction false} WindowInRun(hot: seq<bool>, i: int, j: int) returns (i': int, j': int)
    requires Window(hot, i, j)
    ensures MaximalRun(hot, i', j') && i' <= i && j <= j'
    decreases |hot| - j + i
  {
    if i > 0 && hot[i - 1] {
      i', j' := WindowInRun(hot, i - 1, j);
    } else if j < |hot| && hot[j] {
      i', j' := WindowInRun(hot, i, j + 1);
    } else {
      i', j' := i, j;
    }
  }

  /** A maximal run that meets another is that run. */
  lemma RunsDisjoint(hot: seq<bool>, i: int, j: int, i': int, j': int)
    requires MaximalRun(hot, i, j) && MaximalRun(hot, i', j') && i <= i' < j
    ensures i == i' && j == j'
  {
  }

  /** The anomalous depths from `first` on, up to the next depth that is not. */
  method Region(depths: seq<int>, top: map<int, Score>, threshold: real, first: int, ghost s: int)
    returns (region: seq<int>)
    requires forall i :: 0 <= i < |depths| ==> depths[i] in top
    requires forall i, j :: 0 <= i < j < |depths| ==> depths[i] < depths[j]
    requires 0 <= s < |depths| && depths[s] == first && Hot(depths, top, threshold)[s]
    requires s > 0 ==> !Hot(depths, top, threshold)[s - 1]
    ensures exists j :: s < j <= |depths| && MaximalRun(Hot(depths, top, threshold), s, j) && depths[s..j] == region
  {
    ghost var hot := Hot(depths, top, threshold);
    region := [];
    var active, n := false, 0;
    while n < |depths|
      invariant 0 <= n <= |depths| && (active <==> n > s)
      invariant active ==> Window(hot, s, n) && region == depths[s..n]
      invariant !active ==> region == []
    {
      var d := depths[n];
      if d == first { active := true; }
      if active {
        if !AtLeast(top[d], threshold) { break; }
        region := region + [d];
      }
      n := n + 1;
    }
    assert MaximalRun(hot, s, n);
  }

  /** A run that ends before it is long enough moves the search past its end. */
  lemma ShortRun(hot: seq<bool>, need: int, start: int, n: int)
    requires 0 <= start <= n < |hot| && !hot[n] && n - start < need && NoneBefore(hot, need, start)
    ensures NoneBefore(hot, need, n + 1)
  {
  }

  lemma RunReachesEnd(hot: seq<bool>, need: int, s: int, n: int, j: int)
    requires 0 <= s < n <= |hot| && Window(hot, s, n) && n - s >= need
    requires MaximalRun(hot, s, j) && NoneBefore(hot, need, s)
    ensures FirstLongRun(hot, need, s, j)
  {
  }

  /** The reported first divergence and region, on the sorted observed depths. */
  method Localise(depths: seq<int>, top: map<int, Score>, threshold: real, minConsecutive: int)
    returns (first: Option<int>, region: seq<int>)
    requires forall i :: 0 <= i < |depths| ==> depths[i] in top
    requires forall i, j :: 0 <= i < j < |depths| ==> depths[i] < depths[j]
    ensures IsAnswer(depths, Hot(depths, top, threshold), Needed(minConsecutive), first, region)
  {
    hide FirstLongRun, NoneBefore, MaximalRun;
    ghost var need := Needed(minConsecutive);
    ghost var hot := Hot(depths, top, threshold);
    var current := [];
    first, region := None, [];
    ghost var start := 0;
    StartOfSearch(hot, need);
    var n := 0;
    while n < |depths|
      invariant 0 <= start <= n <= |depths| && current == depths[start..n]
      invariant start < n ==> Window(hot, start, n)
      invariant (start > 0 ==> !hot[start - 1]) && NoneBefore(hot, need, start)
      invariant first.None? ==> region == [] && n - start < need
      invariant first.Some? ==> n - start >= need && first.value == depths[start]
    {
      var d := depths[n];
      assert hot[n] == AtLeast(top[d], threshold);
      if AtLeast(top[d], threshold) {
        current := current + [d];
        if |current| >= minConsecutive && first == None {
          first, region := Some(current[0]), current;
        }
      } else {
        if first.Some? { break; }
        ShortRun(hot, need, start, n);
        current := [];
        start := n + 1;
      }
      n := n + 1;
    }
    if first.Some? {
      assert hot[start];
      region := Region(depths, top, threshold, first.value, start);
      ghost var j: int :| start < j <= |depths| && MaximalRun(hot, start, j) && depths[start..j] == region;
      RunReachesEnd(hot, need, start, n, j);
      assert FirstLongRun(hot, need, start, j) && depths[start] == first.value && depths[start..j] == region;
    } else {
      NoRoomLeft(hot, need, start);
    }
  }

  lemma StartOfSearch(hot: seq<bool>, need: int)
    ensures NoneBefore(hot, need, 0)
  {
  }

  lemma NoRoomLeft(hot: seq<bool>, need: int, start: int)
    requires 0 <= start <= |hot| && |hot| - start < need && NoneBefore(hot, need, start)
    ensures NoneBefore(hot, need, |hot|)
  {
  }

  /** There is a long enough run exactly when there are `need` adjacent anomalous depths. */
  lemma LongRunIffWindow(hot: seq<bool>, need: int)
    requires need >= 1
    ensures (exists i, j :: MaximalRun(hot, i, j) && j - i >= need) <==> (exists i :: WindowOf(hot, i, need))
  {
    if i, j :| MaximalRun(hot, i, j) && j - i >= need { assert WindowOf(hot, i, need); }
    if i :| WindowOf(hot, i, need) { var i', j' := WindowInRun(hot, i, i + need); }
  }

  /** No `need` adjacent anomalous depths begin before the reported divergence, which begins some. */
  lemma FirstLongRunIsFirstWindow(hot: seq<bool>, need: int, i: int, j: int)
    requires need >= 1 && MaximalRun(hot, i, j) && j - i >= need
    ensures FirstLongRun(hot, need, i, j) <==> forall k :: WindowOf(hot, k, need) ==> i <= k
  {
    if FirstLongRun(hot, need, i, j) {
      forall k | WindowOf(hot, k, need) ensures i <= k {
        var i', j' := WindowInRun(hot, k, k + need);
      }
    }
    if forall k :: WindowOf(hot, k, need) ==> i <= k {
      forall i', j' | MaximalRun(hot, i', j') && j' - i' >= need ensures i <= i' {
        assert WindowOf(hot, i', need);
      }
    }
  }

  lemma FirstLongRunUnique(hot: seq<bool>, need: int, i: int, j: int, i': int, j': int)
    requires FirstLongRun(hot, need, i, j) && FirstLongRun(hot, need, i', j')
    ensures i == i' && j == j'
  {
    RunsDisjoint(hot, i, j, i', j');
  }

  /** The maxima, the depths and the loops leave no choice: there is one answer. */
  lemma AnswerUnique(
      depths: seq<int>, hot: seq<bool>, need: int, a: Option<int>, r: seq<int>, b: Option<int>, s: seq<int>)
    requires |depths| == |hot| && IsAnswer(depths, hot, need, a, r) && IsAnswer(depths, hot, need, b, s)
    ensures a == b && r == s
  {
    if a.Some? && b.Some? {
      var i, j :| FirstLongRun(hot, need, i, j) && depths[i] == a.value && depths[i..j] == r;
      var k, l :| FirstLongRun(hot, need, k, l) && depths[k] == b.value && depths[k..l] == s;
      FirstLongRunUnique(hot, need, i, j, k, l);
    }
  }

  /** Fewer anomalous depths or a longer required run never move the divergence forward. */
  lemma StricterFindsLater(hot: seq<bool>, hot': seq<bool>, need: int, need': int, i: int, j: int, i': int, j': int)
    requires |hot| == |hot'| && forall k :: 0 <= k < |hot| && hot'[k] ==> hot[k]
    requires 1 <= need <= need' && FirstLongRun(hot, need, i, j) && FirstLongRun(hot', need', i', j')
    ensures i <= i'
  {
    var a, b := WindowInRun(hot, i', j');
  }

  lemma StricterFindsNoMore(hot: seq<bool>, hot': seq<bool>, need: int, need': int, i': int, j': int)
    requires |hot| == |hot'| && forall k :: 0 <= k < |hot| && hot'[k] ==> hot[k]
    requires 1 <= need <= need' && FirstLongRun(hot', need', i', j')
    ensures exists i, j :: MaximalRun(hot, i, j) && j - i >= need
  {
    var a, b := WindowInRun(hot, i', j');
  }

  // ---- From events to the report ----

  predicate IntLe(x: int, y: int) { x <= y }

  /** sorted(depth_max) */
  method ObservedDepths(top: map<int, Score>) returns (depths: seq<int>)
    ensures forall i, j :: 0 <= i < j < |depths| ==> depths[i] < depths[j]
    ensures forall d :: d in depths <==> d in top
  {
    depths := [];
    var left := top.Keys;
    while left != {}
      invariant left <= top.Keys
      invariant forall d :: d in depths <==> d in top.Keys - left
      invariant forall i, j :: 0 <= i < j < |depths| ==> depths[i] < depths[j]
      decreases |left|
    {
      assert exists d :: d in left by { var d := SomeElement(left); }
      var d :| d in left;
      Inserted(depths, d);
      depths, left := Insert(IntLe, d, depths), left - {d};
    }
  }

  lemma {:induction false} Inserted(depths: seq<int>, d: int)
    requires forall i, j :: 0 <= i < j < |depths| ==> depths[i] < depths[j]
    requires d !in depths
    ensures forall e :: e in Insert(IntLe, d, depths) <==> e == d || e in depths
    ensures forall i, j :: 0 <= i < j < |Insert(IntLe, d, depths)| ==>
      Insert(IntLe, d, depths)[i] < Insert(IntLe, d, depths)[j]
  {
    if depths != [] && !IntLe(d, depths[0]) {
      var rest := depths[1..];
      assert depths == [depths[0]] + rest;
      Inserted(rest, d);
      Prepended(depths[0], Insert(IntLe, d, rest));
    } else {
      Prepended(d, depths);
    }
  }

  lemma Prepended(d: int, s: seq<int>)
    requires forall i, j :: 0 <= i < j < |s| ==> s[i] < s[j]
    requires forall e :: e in s ==> d < e
    ensures forall i, j :: 0 <= i < j < |[d] + s| ==> ([d] + s)[i] < ([d] + s)[j]
    ensures forall e :: e in [d] + s <==> e == d || e in s
  {
    forall j | 0 <= j < |s| ensures d < s[j] { assert s[j] in s; }
  }

  ghost predicate AnomalousAt(b: Baseline, events: seq<Event>, threshold: real, d: int) {
    exists x :: x in Rows(b, events) && x.depth == d && AtLeast(x.az, threshold)
  }

  ghost function HotDepths(b: Baseline, events: seq<Event>, threshold: real, depths: seq<int>): (hot: seq<bool>)
    ensures |hot| == |depths|
  {
    seq(|depths|, i requires 0 <= i < |depths| => AnomalousAt(b, events, threshold, depths[i]))
  }

  /** The localisation of a whole log, stated on its report rows alone. */
  method ScoreLog(b: Baseline, events: seq<Event>, threshold: real, minConsecutive: int)
    returns (rows: seq<Row>, depths: seq<int>, first: Option<int>, region: seq<int>)
    ensures rows == Rows(b, events)
    ensures forall i, j :: 0 <= i < j < |depths| ==> depths[i] < depths[j]
    ensures forall d :: d in depths <==> exists x :: x in rows && x.depth == d
    ensures IsAnswer(depths, HotDepths(b, events, threshold, depths), Needed(minConsecutive), first, region)
  {
    var top: map<int, Score>;
    rows, top := ScoreEvents(b, events);
    depths := ObservedDepths(top);
    assert forall i :: 0 <= i < |depths| ==> depths[i] in depths;
    first, region := Localise(depths, top, threshold, minConsecutive);
    forall i | 0 <= i < |depths|
      ensures Hot(depths, top, threshold)[i] == HotDepths(b, events, threshold, depths)[i]
    {
      AnomalousDepthHasAnomalousRow(b, events, top, depths[i], threshold);
    }
    assert Hot(depths, top, threshold) == HotDepths(b, events, threshold, depths);
  }
}
