/** The parallel combinators `predicament.all` and `predicament.any`: every
    combinant is started at once, then a latch `(resolved, n)` consumes the
    completions in whatever order they arrive and reports at most once. */
module Parallel {
  import opened Values
  import opened Coerce
  import Serial

  /** The state shared by the callbacks of one call: `resolved` and the
      countdown `n` of combinants still expected to pass. */
  datatype Latch = Latch(resolved: bool, pending: int)

  /** The callback `resolve(err, val)` handed to every combinant. `short` is
      the value that decides early: false for `all`, true for `any`. */
  function LatchStep(short: bool, l: Latch, c: Completion): (res: (Latch, Option<Report>))
    ensures l.resolved ==> res == (l, None)
    ensures res.1.Some? ==> !l.resolved && res.0.resolved
    ensures !l.resolved && Stops(short, c) ==> res.1 == Some(StopReport(short, c))
    ensures !l.resolved && !Stops(short, c) ==>
              res.1 == (if l.pending - 1 == 0 then Some(Decided(!short)) else None)
    ensures !l.resolved && !Stops(short, c) ==> res.0.pending == l.pending - 1
    ensures res.1.None? ==> res.0.resolved == l.resolved
  {
    if l.resolved then (l, None)
    else
      match Classify(c)
      case Err(e) => (Latch(true, l.pending), Some(Failed(e)))
      case Val(v) =>
        if Truthy(v) == short then (Latch(true, l.pending), Some(Decided(short)))
        else if l.pending - 1 == 0 then (Latch(true, 0), Some(Decided(!short)))
        else (Latch(false, l.pending - 1), None)
  }

  /** The latch run over the completions in arrival order; entry `i` is what
      the `i`-th arrival hands the final callback, if anything. */
  function LatchFold(short: bool, l: Latch, arrivals: seq<Completion>): (out: seq<Option<Report>>)
    ensures |out| == |arrivals|
    ensures l.resolved ==> forall i :: 0 <= i < |arrivals| ==> out[i] == None
    decreases |arrivals|
  {
    if |arrivals| == 0 then []
    else
      var (next, report) := LatchStep(short, l, arrivals[0]);
      [report] + LatchFold(short, next, arrivals[1..])
  }

  /** From any latch state, whatever arrives, at most one arrival reports:
      the report resolves the latch, and a resolved latch stays silent. */
  lemma {:induction false} LatchFoldReportsOnce(short: bool, l: Latch, arrivals: seq<Completion>)
    ensures forall i, j :: (0 <= i < |arrivals| && 0 <= j < |arrivals|
              && LatchFold(short, l, arrivals)[i].Some?
              && LatchFold(short, l, arrivals)[j].Some?) ==> i == j
    decreases |arrivals|
  {
    if |arrivals| > 0 {
      var out := LatchFold(short, l, arrivals);
      var (next, report) := LatchStep(short, l, arrivals[0]);
      var rest := LatchFold(short, next, arrivals[1..]);
      assert out == [report] + rest;
      LatchFoldReportsOnce(short, next, arrivals[1..]);
    }
  }

  /** Index of the first arrival that stops the combinator, or the number of
      arrivals if none does. */
  function FirstStop(short: bool, arrivals: seq<Completion>): (k: nat)
    ensures k <= |arrivals|
    ensures forall i :: 0 <= i < k ==> !Stops(short, arrivals[i])
    ensures k < |arrivals| ==> Stops(short, arrivals[k])
    decreases |arrivals|
  {
    if |arrivals| == 0 then 0
    else if Stops(short, arrivals[0]) then 0
    else 1 + FirstStop(short, arrivals[1..])
  }

  /** The arrival at which a latch counting down from `n` closes: the first
      stopping arrival, or the `n`-th arrival if that comes first. A count of
      zero or less is never reached by counting down. */
  function DecisiveIndex(short: bool, n: int, arrivals: seq<Completion>): (k: nat)
    ensures k <= FirstStop(short, arrivals)
  {
    var d := FirstStop(short, arrivals);
    if 1 <= n && n - 1 < d then n - 1 else d
  }

  /** The report made at the decisive arrival. */
  function DecisiveReport(short: bool, n: int, arrivals: seq<Completion>): Report
    requires DecisiveIndex(short, n, arrivals) < |arrivals|
  {
    var k := DecisiveIndex(short, n, arrivals);
    if k < FirstStop(short, arrivals) then Decided(!short)
    else StopReport(short, arrivals[k])
  }

  /** The latch reports exactly at the decisive arrival (if there is one)
      and nowhere else. */
  lemma {:induction false} LatchFoldDecides(short: bool, n: int, arrivals: seq<Completion>)
    ensures forall i :: 0 <= i < |arrivals| && i != DecisiveIndex(short, n, arrivals) ==>
              LatchFold(short, Latch(false, n), arrivals)[i] == None
    ensures DecisiveIndex(short, n, arrivals) < |arrivals| ==>
              LatchFold(short, Latch(false, n), arrivals)[DecisiveIndex(short, n, arrivals)]
                == Some(DecisiveReport(short, n, arrivals))
    decreases |arrivals|
  {
    if |arrivals| > 0 {
      var out := LatchFold(short, Latch(false, n), arrivals);
      var rest := arrivals[1..];
      var (next, report) := LatchStep(short, Latch(false, n), arrivals[0]);
      assert out == [report] + LatchFold(short, next, rest);
      if !Stops(short, arrivals[0]) && n - 1 != 0 {
        assert next == Latch(false, n - 1);
        assert FirstStop(short, arrivals) == 1 + FirstStop(short, rest);
        LatchFoldDecides(short, n - 1, rest);
        assert DecisiveIndex(short, n, arrivals) == 1 + DecisiveIndex(short, n - 1, rest);
      }
    }
  }

  /** The first report in a run of the latch, if any. */
  function FirstReport(out: seq<Option<Report>>): (r: Option<Report>)
    ensures r.None? <==> forall i :: 0 <= i < |out| ==> out[i] == None
    ensures r.Some? ==> exists i :: 0 <= i < |out| && out[i] == r
                           && forall j :: 0 <= j < i ==> out[j] == None
    decreases |out|
  {
    if |out| == 0 then None
    else if out[0].Some? then out[0]
    else FirstReport(out[1..])
  }

  /** The combinants as started, and what each arrival reported. */
  datatype ParallelRun = ParallelRun(started: seq<AsyncPredicate>, reports: seq<Option<Report>>)

  /** Start every combinant, then run the latch over the arrivals. The latch
      is unresolved before the first arrival, so this assumes no combinant
      calls back while the combinants are still being started. */
  function Parallel(short: bool, cs: seq<Combinant>, arrivals: seq<Completion>): (r: ParallelRun)
    ensures |r.started| == |cs|
    ensures forall i :: 0 <= i < |cs| ==> r.started[i] == EnsureCombinant(cs[i])
    ensures |r.reports| == |arrivals|
    ensures forall i, j :: (0 <= i < |arrivals| && 0 <= j < |arrivals|
              && r.reports[i].Some? && r.reports[j].Some?) ==> i == j
    ensures forall i :: 0 <= i < |arrivals| ==>
              (r.reports[i].Some? <==> i == DecisiveIndex(short, |cs|, arrivals))
    ensures DecisiveIndex(short, |cs|, arrivals) < |arrivals| ==>
              r.reports[DecisiveIndex(short, |cs|, arrivals)]
                == Some(DecisiveReport(short, |cs|, arrivals))
  {
    LatchFoldDecides(short, |cs|, arrivals);
    ParallelRun(Normalize(cs), LatchFold(short, Latch(false, |cs|), arrivals))
  }

  /** `predicament.all(c1, ..., cn, cb)`, given the order in which the
      combinants' completions arrive. */
  function All(cs: seq<Combinant>, arrivals: seq<Completion>): (r: ParallelRun)
    ensures |r.started| == |cs|
    ensures forall i :: 0 <= i < |cs| ==> r.started[i] == EnsureCombinant(cs[i])
    ensures |r.reports| == |arrivals|
    ensures forall i, j :: (0 <= i < |arrivals| && 0 <= j < |arrivals|
              && r.reports[i].Some? && r.reports[j].Some?) ==> i == j
    ensures forall i :: 0 <= i < |arrivals| ==>
              (r.reports[i].Some? <==> i == DecisiveIndex(false, |cs|, arrivals))
    ensures forall i :: 0 <= i < |arrivals| && r.reports[i] == Some(Decided(true)) ==>
              1 <= |cs| && i == |cs| - 1
              && forall j :: 0 <= j <= i ==> !Stops(false, arrivals[j])
    ensures forall i :: (0 <= i < |arrivals| && Stops(false, arrivals[i])
              && (forall j :: 0 <= j < i ==> !Stops(false, arrivals[j]))
              && (|cs| < 1 || i < |cs|)) ==>
              r.reports[i] == Some(StopReport(false, arrivals[i]))
    ensures (1 <= |cs| <= |arrivals|
              && forall j :: 0 <= j < |cs| ==> !Stops(false, arrivals[j])) ==>
              r.reports[|cs| - 1] == Some(Decided(true))
  {
    Parallel(false, cs, arrivals)
  }

  /** `predicament.any(c1, ..., cn, cb)`, given the order in which the
      combinants' completions arrive. */
  function Any(cs: seq<Combinant>, arrivals: seq<Completion>): (r: ParallelRun)
    ensures |r.started| == |cs|
    ensures forall i :: 0 <= i < |cs| ==> r.started[i] == EnsureCombinant(cs[i])
    ensures |r.reports| == |arrivals|
    ensures forall i, j :: (0 <= i < |arrivals| && 0 <= j < |arrivals|
              && r.reports[i].Some? && r.reports[j].Some?) ==> i == j
    ensures forall i :: 0 <= i < |arrivals| ==>
              (r.reports[i].Some? <==> i == DecisiveIndex(true, |cs|, arrivals))
    ensures forall i :: 0 <= i < |arrivals| && r.reports[i] == Some(Decided(false)) ==>
              1 <= |cs| && i == |cs| - 1
              && forall j :: 0 <= j <= i ==> !Stops(true, arrivals[j])
    ensures forall i :: (0 <= i < |arrivals| && Stops(true, arrivals[i])
              && (forall j :: 0 <= j < i ==> !Stops(true, arrivals[j]))
              && (|cs| < 1 || i < |cs|)) ==>
              r.reports[i] == Some(StopReport(true, arrivals[i]))
    ensures (1 <= |cs| <= |arrivals|
              && forall j :: 0 <= j < |cs| ==> !Stops(true, arrivals[j])) ==>
              r.reports[|cs| - 1] == Some(Decided(false))
  {
    Parallel(true, cs, arrivals)
  }

  /** The arrivals are the started combinants' completions, each arriving
      once, in some order: the single-callback contract of a predicate. */
  predicate ArrivalOrder(cs: seq<Combinant>, arrivals: seq<Completion>) {
    multiset(arrivals) == multiset(Completions(Normalize(cs)))
  }

  lemma ArrivalsAreCompletions(cs: seq<Combinant>, arrivals: seq<Completion>)
    requires ArrivalOrder(cs, arrivals)
    ensures |arrivals| == |cs|
    ensures forall i :: 0 <= i < |arrivals| ==>
              exists j :: 0 <= j < |cs| && arrivals[i] == EnsureCombinant(cs[j]).completion
    ensures forall j :: 0 <= j < |cs| ==>
              exists i :: 0 <= i < |arrivals| && arrivals[i] == EnsureCombinant(cs[j]).completion
  {
    var done := Completions(Normalize(cs));
    assert |multiset(arrivals)| == |multiset(done)|;
    forall i | 0 <= i < |arrivals|
      ensures exists j :: 0 <= j < |cs| && arrivals[i] == EnsureCombinant(cs[j]).completion
    {
      assert arrivals[i] in multiset(arrivals);
      assert arrivals[i] in done;
    }
    forall j | 0 <= j < |cs|
      ensures exists i :: 0 <= i < |arrivals| && arrivals[i] == EnsureCombinant(cs[j]).completion
    {
      assert done[j] in multiset(done);
      assert done[j] in arrivals;
    }
  }

  /** When every combinant calls back exactly once, `short`-mode latch
      reports exactly once if there is at least one combinant, and never if
      there is none. */
  lemma ParallelReportsOnce(short: bool, cs: seq<Combinant>, arrivals: seq<Completion>)
    requires ArrivalOrder(cs, arrivals)
    ensures FirstReport(Parallel(short, cs, arrivals).reports).Some? <==> 1 <= |cs|
  {
    ArrivalsAreCompletions(cs, arrivals);
    var r := Parallel(short, cs, arrivals);
    if 1 <= |cs| {
      var k := DecisiveIndex(short, |cs|, arrivals);
      assert r.reports[k].Some?;
    }
  }

  /** When every combinant calls back exactly once and none fails, `all`
      reports, whatever the arrival order, what the serial `and` reports;
      with no combinant at all, `all` never reports while `and` says true. */
  lemma AllAgreesWithAnd(cs: seq<Combinant>, arrivals: seq<Completion>)
    requires ArrivalOrder(cs, arrivals)
    requires forall i :: 0 <= i < |cs| ==> !Fails(cs[i])
    ensures 1 <= |cs| ==> FirstReport(All(cs, arrivals).reports) == Some(Serial.And(cs).report)
    ensures |cs| == 0 ==> FirstReport(All(cs, arrivals).reports) == None
  {
    ParallelAgreesWithSeries(false, cs, arrivals);
  }

  /** The same for `any` and the serial `or`. */
  lemma AnyAgreesWithOr(cs: seq<Combinant>, arrivals: seq<Completion>)
    requires ArrivalOrder(cs, arrivals)
    requires forall i :: 0 <= i < |cs| ==> !Fails(cs[i])
    ensures 1 <= |cs| ==> FirstReport(Any(cs, arrivals).reports) == Some(Serial.Or(cs).report)
    ensures |cs| == 0 ==> FirstReport(Any(cs, arrivals).reports) == None
  {
    ParallelAgreesWithSeries(true, cs, arrivals);
  }

  lemma ParallelAgreesWithSeries(short: bool, cs: seq<Combinant>, arrivals: seq<Completion>)
    requires ArrivalOrder(cs, arrivals)
    requires forall i :: 0 <= i < |cs| ==> !Fails(cs[i])
    ensures 1 <= |cs| ==>
              FirstReport(Parallel(short, cs, arrivals).reports)
                == Some(Serial.Series(short, Normalize(cs)).report)
    ensures |cs| == 0 ==> FirstReport(Parallel(short, cs, arrivals).reports) == None
  {
    ArrivalsAreCompletions(cs, arrivals);
    ParallelReportsOnce(short, cs, arrivals);
    var r := Parallel(short, cs, arrivals);
    var ps := Normalize(cs);
    var s := Serial.Series(short, ps);
    if 1 <= |cs| {
      var n := |cs|;
      var d := FirstStop(short, arrivals);
      var k := DecisiveIndex(short, n, arrivals);
      assert r.reports[k] == Some(DecisiveReport(short, n, arrivals));
      assert FirstReport(r.reports) == r.reports[k];
      if d < n {
        assert k == d;
        var j :| 0 <= j < |cs| && arrivals[d] == EnsureCombinant(cs[j]).completion;
        assert !Fails(cs[j]);
        assert Stops(short, ps[j].completion);
        assert DecisiveReport(short, n, arrivals) == Decided(short);
        assert s.report != Decided(!short);
        assert 0 < s.invoked && !Fails(cs[s.invoked - 1]);
      } else {
        assert k == n - 1;
        forall j | 0 <= j < |cs|
          ensures !Stops(short, ps[j].completion)
        {
          var i :| 0 <= i < |arrivals| && arrivals[i] == EnsureCombinant(cs[j]).completion;
        }
      }
    }
  }

  function NegateReports(out: seq<Option<Report>>): (neg: seq<Option<Report>>)
    ensures |neg| == |out|
  {
    seq(|out|, i requires 0 <= i < |out| =>
      match out[i]
      case None => None
      case Some(r) => Some(NegateReport(r)))
  }

  /** Running the latch with the opposite short-circuit value over negated
      arrivals reports at the same arrivals, with negated reports. */
  lemma {:induction false} LatchFoldDuality(short: bool, l: Latch, arrivals: seq<Completion>)
    ensures LatchFold(!short, l, NegateCompletions(arrivals))
         == NegateReports(LatchFold(short, l, arrivals))
    decreases |arrivals|
  {
    if |arrivals| > 0 {
      var neg := NegateCompletions(arrivals);
      assert neg[1..] == NegateCompletions(arrivals[1..]);
      var (next, _) := LatchStep(short, l, arrivals[0]);
      LatchFoldDuality(short, next, arrivals[1..]);
    }
  }

  /** `any` is the dual of `all`: on negated combinants and negated arrivals
      `all` starts the same combinants and reports the negation of what
      `any` reports, at the same arrival. It follows from the contracts of
      `All` and `Any`, which determine every report. */
  lemma AnyIsDualOfAll(cs: seq<Combinant>, arrivals: seq<Completion>)
    ensures Any(cs, arrivals).reports
         == NegateReports(All(NegateCombinants(cs), NegateCompletions(arrivals)).reports)
  {
  }
}
