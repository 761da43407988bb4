/** JavaScript values as far as predicament.js looks at them, the node-style
    callback arguments `(err, val)` and the reports a combinator makes. */
module Values {

  datatype Option<+T> = None | Some(value: T)

  /** A JavaScript value, reduced to what truthiness can tell apart.
      Numbers are integers here; `NaN` is kept because it is falsy. */
  datatype Value =
    | Undefined
    | Null
    | Bool(b: bool)
    | Number(n: int)
    | NaN
    | Str(s: string)
    | Object(id: nat)

  /** JavaScript truthiness, as used by `if (x)`, `!x` and `!!x`. */
  predicate Truthy(v: Value) {
    match v
    case Undefined => false
    case Null => false
    case Bool(b) => b
    case Number(n) => n != 0
    case NaN => false
    case Str(s) => s != ""
    case Object(_) => true
  }

  /** The arguments an asynchronous predicate passes to its callback. */
  datatype Completion = Completion(err: Value, val: Value)

  /** What the callbacks in predicament.js make of a completion: a truthy
      `err` is a failure, anything else a value. */
  datatype Outcome = Err(error: Value) | Val(value: Value)

  function Classify(c: Completion): (o: Outcome)
    ensures o.Err? <==> Truthy(c.err)
    ensures o.Err? ==> o.error == c.err
    ensures o.Val? ==> o.value == c.val
  {
    if Truthy(c.err) then Err(c.err) else Val(c.val)
  }

  /** What a combinator hands its final callback: `cb(err)` or `cb(null, b)`. */
  datatype Report = Failed(error: Value) | Decided(result: bool)

  /** A completion that stops a combinator whose short-circuit value is
      `short` (false for and/all, true for or/any): a failure, or a value
      whose truthiness is `short`. */
  predicate Stops(short: bool, c: Completion) {
    Truthy(c.err) || Truthy(c.val) == short
  }

  /** The report made for a completion that stops the combinator. */
  function StopReport(short: bool, c: Completion): (r: Report)
    requires Stops(short, c)
    ensures r.Failed? <==> Truthy(c.err)
    ensures r.Failed? ==> r.error == c.err
    ensures r.Decided? ==> r.result == short
  {
    match Classify(c)
    case Err(e) => Failed(e)
    case Val(_) => Decided(short)
  }

  /** Two completions no combinator can tell apart: the same failure, or
      values of the same truthiness. */
  predicate Equivalent(c: Completion, d: Completion) {
    match Classify(c)
    case Err(e) => Classify(d) == Err(e)
    case Val(v) => Classify(d).Val? && (Truthy(v) <==> Truthy(Classify(d).value))
  }

  /** The completion with its value's truthiness flipped (the failure kept). */
  function NegateCompletion(c: Completion): (d: Completion)
    ensures Truthy(d.err) <==> Truthy(c.err)
    ensures Truthy(d.val) <==> !Truthy(c.val)
  {
    Completion(c.err, Bool(!Truthy(c.val)))
  }

  function NegateReport(r: Report): (s: Report)
    ensures s.Failed? <==> r.Failed?
    ensures s.Failed? ==> s.error == r.error
    ensures s.Decided? ==> s.result == !r.result
  {
    match r
    case Failed(e) => Failed(e)
    case Decided(b) => Decided(!b)
  }

  function NegateCompletions(cs: seq<Completion>): (ds: seq<Completion>)
    ensures |ds| == |cs|
    ensures forall i :: 0 <= i < |cs| ==> ds[i] == NegateCompletion(cs[i])
  {
    seq(|cs|, i requires 0 <= i < |cs| => NegateCompletion(cs[i]))
  }
}
