/** The drift and recovery machine that folds findings into a node state. */
module FleetPolicy {

  datatype Severity = Info | Low | Medium | High | Critical

  function Score(s: Severity): (n: nat) {
    match s
    case Info => 10
    case Low => 20
    case Medium => 30
    case High => 40
    case Critical => 50
  }

  datatype Finding = Finding(code: string, severity: Severity)

  datatype NodeState = NORMAL | OBSERVE | ALERT | CRITICAL | RECOVERED

  function MaxScore(fs: seq<Finding>): (n: nat) {
    if fs == [] then 0
    else
      var rest := MaxScore(fs[1..]);
      if Score(fs[0].severity) > rest then Score(fs[0].severity) else rest
  }

  predicate Dirty(s: NodeState) { s == CRITICAL || s == ALERT || s == OBSERVE }

  /** aggregate_state */
  function AggregateState(fs: seq<Finding>, previous: NodeState, streak: int, required: int): (r: (NodeState, int)) {
    var score := MaxScore(fs);
    if score >= 50 then (CRITICAL, 0)
    else if score >= 40 then (ALERT, 0)
    else if score >= 30 then (OBSERVE, 0)
    else if Dirty(previous) then
      if streak + 1 >= required then (RECOVERED, streak + 1) else (previous, streak + 1)
    else (NORMAL, 0)
  }

  /** The state after a history of heartbeats, under one recovery setting. */
  function Fold(history: seq<seq<Finding>>, required: int): (r: (NodeState, int)) {
    if history == [] then (NORMAL, 0)
    else
      var before := Fold(history[..|history| - 1], required);
      AggregateState(history[|history| - 1], before.0, before.1, required)
  }

  // ---- The same, read off the history ----

  /** A heartbeat is clean when it reports nothing above low. */
  ghost predicate Clean(fs: seq<Finding>) {
    forall f :: f in fs ==> f.severity == Info || f.severity == Low
  }

  /** The class of a heartbeat that is not clean: that of its worst finding. */
  ghost function ClassOf(fs: seq<Finding>): (s: NodeState)
    requires !Clean(fs)
  {
    if exists f :: f in fs && f.severity == Critical then CRITICAL
    else if exists f :: f in fs && f.severity == High then ALERT
    else OBSERVE
  }

  /** How many heartbeats in a row at the end are clean. */
  ghost function TrailingClean(history: seq<seq<Finding>>): (k: nat)
    ensures k <= |history| && (k < |history| ==> !Clean(history[|history| - 1 - k]))
  {
    if history == [] || !Clean(history[|history| - 1]) then 0 else 1 + TrailingClean(history[..|history| - 1])
  }

  /** With k clean heartbeats since the last dirty one and R at least one: that one's class while
      k < R, RECOVERED at k = R, NORMAL afterwards; NORMAL if nothing was ever dirty. */
  ghost function ClosedForm(history: seq<seq<Finding>>, required: int): (r: (NodeState, int)) {
    var k, needed := TrailingClean(history), if required >= 1 then required else 1;
    if k == |history| || k > needed then (NORMAL, 0)
    else if k == needed then (RECOVERED, k)
    else (ClassOf(history[|history| - 1 - k]), k)
  }

  lemma {:induction false} MaxScoreReads(fs: seq<Finding>)
    ensures forall f :: f in fs ==> Score(f.severity) <= MaxScore(fs)
    ensures fs != [] ==> exists f :: f in fs && Score(f.severity) == MaxScore(fs)
  {
    if fs != [] {
      MaxScoreReads(fs[1..]);
      if MaxScore(fs) == Score(fs[0].severity) {
        assert fs[0] in fs;
      } else {
        assert fs[1..] == [] ==> MaxScore(fs[1..]) == 0;
        assert MaxScore(fs) == MaxScore(fs[1..]) >= Score(fs[0].severity) >= 10;
        var f :| f in fs[1..] && Score(f.severity) == MaxScore(fs[1..]);
        assert f in fs;
      }
    }
  }

  lemma ScoreGivesClass(fs: seq<Finding>)
    ensures MaxScore(fs) < 30 <==> Clean(fs)
    ensures !Clean(fs) ==>
      ClassOf(fs) == if MaxScore(fs) >= 50 then CRITICAL else if MaxScore(fs) >= 40 then ALERT else OBSERVE
  {
    MaxScoreReads(fs);
    if fs != [] {
      var f :| f in fs && Score(f.severity) == MaxScore(fs);
      assert Score(f.severity) <= 50;
    }
  }

  lemma {:induction false} FoldIsClosedForm(history: seq<seq<Finding>>, required: int)
    ensures Fold(history, required) == ClosedForm(history, required)
  {
    hide Clean, MaxScore;
    if history != [] {
      var n, last := |history| - 1, history[|history| - 1];
      var before := history[..n];
      FoldIsClosedForm(before, required);
      ScoreGivesClass(last);
      if Clean(last) {
        var k := TrailingClean(before);
        if k < n { assert before[n - 1 - k] == history[n - 1 - k]; }
      }
    }
  }
}
