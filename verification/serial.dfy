/** The serial combinators `predicament.and` and `predicament.or`: a
    left-to-right walk over the combinants (the observable behaviour of
    `async.forEachSeries`) that stops at the first combinant deciding the
    result. */
module Serial {
  import opened Values
  import opened Coerce

  /** The report made to the final callback, and how many combinants were
      invoked (always the first `invoked` ones, one after another). */
  datatype SeriesResult = SeriesResult(report: Report, invoked: nat)

  /** One combinant's callback: `None` is `next()`, `Some(r)` is `cb(...)`.
      `short` is the value that ends the walk: false for `and`, true for
      `or`. */
  function SeriesStep(short: bool, c: Completion): (r: Option<Report>)
    ensures r.Some? <==> Stops(short, c)
    ensures r.Some? ==> r.value == StopReport(short, c)
  {
    match Classify(c)
    case Err(e) => Some(Failed(e))
    case Val(v) => if Truthy(v) == short then Some(Decided(short)) else None
  }

  /** The serial walk: each combinant is invoked only after the previous one
      called `next()`; the final callback reports `!short` only if every
      combinant did. */
  function Series(short: bool, ps: seq<AsyncPredicate>): (r: SeriesResult)
    ensures r.invoked <= |ps|
    ensures forall i :: 0 <= i < r.invoked - 1 ==> !Stops(short, ps[i].completion)
    ensures r.report == Decided(!short)
        <==> forall i :: 0 <= i < |ps| ==> !Stops(short, ps[i].completion)
    ensures r.report == Decided(!short) ==> r.invoked == |ps|
    ensures r.report != Decided(!short) ==>
              && 0 < r.invoked
              && Stops(short, ps[r.invoked - 1].completion)
              && r.report == StopReport(short, ps[r.invoked - 1].completion)
    decreases |ps|
  {
    if |ps| == 0 then SeriesResult(Decided(!short), 0)
    else
      match SeriesStep(short, ps[0].completion)
      case Some(report) => SeriesResult(report, 1)
      case None =>
        var rest := Series(short, ps[1..]);
        SeriesResult(rest.report, rest.invoked + 1)
  }

  /** `predicament.and(c1, ..., cn, cb)`. */
  function And(cs: seq<Combinant>): (r: SeriesResult)
    ensures r.invoked <= |cs|
    ensures forall i :: 0 <= i < r.invoked - 1 ==> IsTrue(cs[i])
    ensures r.report == Decided(true) <==> forall i :: 0 <= i < |cs| ==> IsTrue(cs[i])
    ensures r.report == Decided(true) ==> r.invoked == |cs|
    ensures r.report == Decided(false) <==> 0 < r.invoked && IsFalse(cs[r.invoked - 1])
    ensures r.report.Failed? <==> 0 < r.invoked && Fails(cs[r.invoked - 1])
    ensures r.report.Failed? ==> r.report.error == ResultOf(cs[r.invoked - 1]).error
    ensures |cs| == 0 ==> r == SeriesResult(Decided(true), 0)
  {
    Series(false, Normalize(cs))
  }

  /** `predicament.or(c1, ..., cn, cb)`. */
  function Or(cs: seq<Combinant>): (r: SeriesResult)
    ensures r.invoked <= |cs|
    ensures forall i :: 0 <= i < r.invoked - 1 ==> IsFalse(cs[i])
    ensures r.report == Decided(false) <==> forall i :: 0 <= i < |cs| ==> IsFalse(cs[i])
    ensures r.report == Decided(false) ==> r.invoked == |cs|
    ensures r.report == Decided(true) <==> 0 < r.invoked && IsTrue(cs[r.invoked - 1])
    ensures r.report.Failed? <==> 0 < r.invoked && Fails(cs[r.invoked - 1])
    ensures r.report.Failed? ==> r.report.error == ResultOf(cs[r.invoked - 1]).error
    ensures |cs| == 0 ==> r == SeriesResult(Decided(false), 0)
  {
    Series(true, Normalize(cs))
  }

  function DualResult(r: SeriesResult): SeriesResult {
    SeriesResult(NegateReport(r.report), r.invoked)
  }

  function NegatePredicates(ps: seq<AsyncPredicate>): (qs: seq<AsyncPredicate>)
    ensures |qs| == |ps|
    ensures forall i :: 0 <= i < |ps| ==> qs[i].completion == NegateCompletion(ps[i].completion)
  {
    seq(|ps|, i requires 0 <= i < |ps| => AsyncPredicate(NegateCompletion(ps[i].completion)))
  }

  /** Walking with the opposite short-circuit value over negated predicates
      invokes the same combinants and reports the negated result. This and
      the next two lemmas follow from the contract of `Series`, which
      determines its result. */
  lemma SeriesDuality(short: bool, ps: seq<AsyncPredicate>)
    ensures Series(!short, NegatePredicates(ps)) == DualResult(Series(short, ps))
  {
  }

  /** `or` is the dual of `and`: on negated combinants `and` invokes the same
      prefix and reports the negation of what `or` reports. */
  lemma OrIsDualOfAnd(cs: seq<Combinant>)
    ensures Or(cs) == DualResult(And(NegateCombinants(cs)))
  {
  }

  /** Predicates that complete equivalently make the walk invoke the same
      combinants and report the same thing. */
  lemma SeriesRespectsEquivalence(short: bool, ps: seq<AsyncPredicate>, qs: seq<AsyncPredicate>)
    requires |ps| == |qs|
    requires forall i :: 0 <= i < |ps| ==> Equivalent(ps[i].completion, qs[i].completion)
    ensures Series(short, ps) == Series(short, qs)
  {
  }

  /** Coercing a raw combinant to `!!value` changes nothing: `and` and `or`
      behave as if the value itself had been delivered by a predicate. */
  lemma RawActsAsConstant(cs: seq<Combinant>, i: nat, v: Value)
    requires i < |cs|
    ensures And(cs[i := Raw(v)]) == And(cs[i := Fn(Constant(v))])
    ensures Or(cs[i := Raw(v)]) == Or(cs[i := Fn(Constant(v))])
  {
    var ps := Normalize(cs[i := Raw(v)]);
    var qs := Normalize(cs[i := Fn(Constant(v))]);
    assert forall j :: 0 <= j < |ps| ==> Equivalent(ps[j].completion, qs[j].completion);
    SeriesRespectsEquivalence(false, ps, qs);
    SeriesRespectsEquivalence(true, ps, qs);
  }
}
