/** The coercions of predicament.js: the K combinator, `toPredicate`, and
    `ensureCombinant`, which turns a raw value into a constant predicate. */
module Coerce {
  import opened Values

  /** The K combinator: a nullary function that always returns `v`. */
  function K(v: Value): (f: () -> Value)
    ensures f() == v
  {
    () => v
  }

  /** `toPredicate(v)` is a synchronous nullary predicate whose call gives
      back exactly `v`, falsy values included. */
  function ToPredicate(v: Value): (p: () -> Value)
    ensures p() == v
  {
    K(v)
  }

  /** A single-shot asynchronous predicate, abstracted to the arguments it
      passes to its callback when invoked. */
  datatype AsyncPredicate = AsyncPredicate(completion: Completion)

  /** An operand of a combinator: a function (taken to be an asynchronous
      predicate) or any other value. */
  datatype Combinant = Fn(pred: AsyncPredicate) | Raw(v: Value)

  /** `asyncify.constant(x)`: a predicate that calls back `(null, x)`. */
  function Constant(v: Value): (p: AsyncPredicate)
    ensures !Truthy(p.completion.err)
    ensures Classify(p.completion) == Val(v)
  {
    AsyncPredicate(Completion(Null, v))
  }

  /** `ensureCombinant`: functions pass through unchanged, any other value
      becomes a constant predicate yielding `!!value` and no error. */
  function EnsureCombinant(c: Combinant): (p: AsyncPredicate)
    ensures c.Fn? ==> p == c.pred
    ensures c.Raw? ==> Classify(p.completion) == Val(Bool(Truthy(c.v)))
    ensures c.Raw? ==> Equivalent(p.completion, Constant(c.v).completion)
  {
    match c
    case Fn(pred) => pred
    case Raw(v) => Constant(Bool(Truthy(v)))
  }

  /** `combinants.map(ensureCombinant)`. */
  function Normalize(cs: seq<Combinant>): (ps: seq<AsyncPredicate>)
    ensures |ps| == |cs|
    ensures forall i :: 0 <= i < |cs| ==> ps[i] == EnsureCombinant(cs[i])
  {
    seq(|cs|, i requires 0 <= i < |cs| => EnsureCombinant(cs[i]))
  }

  /** What a combinant's normalized predicate reports when invoked. */
  function ResultOf(c: Combinant): Outcome {
    Classify(EnsureCombinant(c).completion)
  }

  predicate IsTrue(c: Combinant) {
    ResultOf(c).Val? && Truthy(ResultOf(c).value)
  }

  predicate IsFalse(c: Combinant) {
    ResultOf(c).Val? && !Truthy(ResultOf(c).value)
  }

  predicate Fails(c: Combinant) {
    ResultOf(c).Err?
  }

  /** What each predicate calls back with, in list order. */
  function Completions(ps: seq<AsyncPredicate>): (cs: seq<Completion>)
    ensures |cs| == |ps|
    ensures forall i :: 0 <= i < |ps| ==> cs[i] == ps[i].completion
  {
    seq(|ps|, i requires 0 <= i < |ps| => ps[i].completion)
  }

  /** The combinant whose value (or whose predicate's value) has the
      opposite truthiness; failures are kept. */
  function NegateCombinant(c: Combinant): (d: Combinant)
    ensures EnsureCombinant(d).completion
         == NegateCompletion(EnsureCombinant(c).completion)
  {
    match c
    case Fn(p) => Fn(AsyncPredicate(NegateCompletion(p.completion)))
    case Raw(v) => Raw(Bool(!Truthy(v)))
  }

  function NegateCombinants(cs: seq<Combinant>): (ds: seq<Combinant>)
    ensures |ds| == |cs|
    ensures forall i :: 0 <= i < |cs| ==> ds[i] == NegateCombinant(cs[i])
  {
    seq(|cs|, i requires 0 <= i < |cs| => NegateCombinant(cs[i]))
  }
}
