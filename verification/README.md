# predicament — asynchronous boolean combinators and If/Else dispatch, in Dafny

This project models the core of `predicament.js`, a small library of
callback-style asynchronous predicates. It covers:

- the coercions `K`, `toPredicate` and `ensureCombinant`;
- the serial combinators `and` / `or`, which walk the combinants left to
  right and stop at the first one that decides the result;
- the parallel combinators `all` / `any`, which start every combinant and
  then run a latch `(resolved, n)` over the completions in arrival order;
- the `If(predicate, consequent).Else(elseConsequent)` dispatch.

Modelling choices:

- **Values.** A JavaScript value is `Values.Value` and `Values.Truthy` is its
  truthiness. An asynchronous predicate is abstracted to the pair
  `(err, val)` it passes to its callback (`Values.Completion`).
  `Values.Classify` is the `if (err)` test every callback in the source
  applies.
- **Shared code.** `and`/`or` share one walk, `Serial.Series`, and
  `all`/`any` share one latch, `Parallel.LatchFold`. Both take the value
  that ends evaluation early as a parameter: false for `and`/`all`, true for
  `or`/`any`.
- **Arrival order.** The order in which `all`/`any` completions arrive is an
  input sequence. The latch is unresolved before the first arrival. This
  assumes no combinant calls back while the combinants are still being
  started: in the source, `var resolved = false` runs only after the start
  loop.
- **`If`.** `Conditional` models `If` as a state machine with four parts:
  construction, `Else`, the `nextTick` evaluation and the predicate's
  callback. The promise is reduced to a single settlement. A handler runs
  once the promise is settled and reads the configuration current at that
  moment: at settlement if it was registered earlier, at registration
  otherwise. The predicate's callback only exists after the tick has invoked
  the predicate.

Behaviour of the code as written, which the model follows:

- There is no `.Then`. The consequent comes only from the constructor, and
  `Else` is the only chain method.
- A truthy result with no consequent falls through to the else-consequent,
  which then fires with no argument (predicament.js:41-45).
- Each `Else` call registers another rejection handler (predicament.js:63).
  On a failure, the last else-consequent therefore fires once per `Else`
  call, each time with the error.
- An `Else` attached after the promise settled fires the new
  else-consequent with the error if the promise was rejected, and fires
  nothing if it was fulfilled, even on a falsy value: `Else` registers only
  a rejection handler (predicament.js:63-67), and the fulfilment handler
  has already run.
- A failure with no else-consequent is swallowed.
- `all`/`any` with zero combinants never report, because nothing counts `n`
  down to zero. `and`/`or` with zero combinants report `true`/`false`.

## Model

| member | source | states |
|---|---|---|
| Values.Classify | predicament.js:49-53 | a completion is a failure exactly when `err` is truthy, and then carries `err`; otherwise it is the value `val` (the same test opens every callback, lines 96, 116, 138 and 158) |
| Coerce.K | predicament.js:10-14 | the returned nullary function gives back exactly the captured value |
| Coerce.ToPredicate | predicament.js:16-18 | `toPredicate(v)()` is `v` itself, falsy values included |
| Coerce.EnsureCombinant | predicament.js:84-87 | a function combinant passes through unchanged; any other value becomes a predicate that completes without error with `!!value`, indistinguishable from a predicate delivering the value itself |
| Coerce.Normalize | predicament.js:92 | `combinants.map(ensureCombinant)`: the same number of operands, each coerced by `ensureCombinant`, in the same order |
| Serial.SeriesStep | predicament.js:95-99 | a combinant's callback ends the walk exactly when its completion stops it (a failure, or the short-circuit value), reporting the error or that value; otherwise it calls `next()` |
| Serial.Series | predicament.js:94-102 | the left-to-right walk invokes exactly the prefix up to and including the first stopping combinant (all of them if none stops); it reports that combinant's failure or the short-circuit value, and the final value only when no combinant stops |
| Serial.And | predicament.js:89-103 | `and` invokes combinants left to right and none after the first failure or falsy value; the invoked count is 1 + that index, or n; it reports the error, `false`, or `true` exactly when every combinant is truthy; the empty list gives `true` with nothing invoked |
| Serial.Or | predicament.js:131-145 | `or` stops at the first truthy value (reports `true`) or failure (reports the error); it reports `false` only when every combinant is falsy; the empty list gives `false` |
| Serial.SeriesDuality | predicament.js:136-144 | walking negated predicates with the opposite short-circuit value invokes the same count and reports the negated result |
| Serial.OrIsDualOfAnd | predicament.js:131-145 | `or` over the combinants equals the negated `and` over the negated combinants, with the same number invoked |
| Serial.SeriesRespectsEquivalence | predicament.js:95-99 | the walk only depends on each completion's failure and value truthiness |
| Serial.RawActsAsConstant | predicament.js:84-87 | replacing a raw combinant by a predicate that delivers the same value changes neither `and` nor `or` |
| Parallel.LatchStep | predicament.js:114-128 | a resolved latch ignores the event; a failure or short-circuit value reports at once and resolves; any other value counts `n` down and reports the final value only when `n` reaches exactly 0; an arrival that reports nothing leaves the latch unresolved |
| Parallel.LatchFold | predicament.js:113-128 | the latch yields one entry per arrival, and once it is resolved no later arrival reports |
| Parallel.LatchFoldReportsOnce | predicament.js:114-128 | from any latch state and for any arrivals, at most one arrival reports, because a report resolves the latch |
| Parallel.LatchFoldDecides | predicament.js:113-128 | for every arrival sequence and count, the latch reports exactly at the decisive arrival (the first stopping one, or the n-th if that comes first) and nowhere else, with the stopping arrival's report or the final value |
| Parallel.Parallel | predicament.js:105-128 | every combinant is started once, in list order, before any arrival; at most one arrival produces a report, and it is the decisive one |
| Parallel.All | predicament.js:105-129 | `all` starts every combinant; it reports at most once; the first failure or falsy arrival reports at once (if no count reached zero first); `true` only at the n-th arrival after n truthy ones, and always then; never `true` with zero combinants; an arrival reports if and only if it is the decisive one |
| Parallel.Any | predicament.js:147-171 | the dual of `all`: at most one report; the first failure or truthy arrival wins; `false` only after n falsy arrivals; an arrival reports if and only if it is the decisive one |
| Parallel.ParallelReportsOnce | predicament.js:109-128 | when each combinant calls back exactly once, a report is made if and only if there is at least one combinant |
| Parallel.AllAgreesWithAnd | predicament.js:105-129 | with each combinant calling back once and none failing, `all` reports what `and` reports, whatever the arrival order; with zero combinants it reports nothing |
| Parallel.AnyAgreesWithOr | predicament.js:147-171 | the same relation between `any` and `or` |
| Parallel.LatchFoldDuality | predicament.js:156-170 | the latch with the opposite short-circuit value over negated arrivals reports at the same arrivals with negated reports |
| Parallel.AnyIsDualOfAll | predicament.js:147-171 | `any` equals the negation of `all` over negated combinants and arrivals |
| Conditional.OnFulfilled | predicament.js:40-46 | the fulfilment handler makes at most one call: the consequent exactly when the value is truthy and a consequent is set; otherwise the else-consequent, with no argument, if one is set; otherwise nothing |
| Conditional.OnRejected | predicament.js:63-67 | a rejection handler calls the current else-consequent with exactly the error if one is set, and otherwise nothing; it never calls the consequent |
| Conditional.New | predicament.js:31-48 | a fresh `If` stores the consequent, has no else-consequent and no rejection handler, has scheduled the tick, satisfies the invariant, has not invoked its predicate and has fired nothing |
| Conditional.Else | predicament.js:60-69 | `Else` replaces the else-consequent, registers one more rejection handler and keeps the invariant; on a rejected promise it fires the new else-consequent, if set, with exactly the error; otherwise it fires nothing |
| Conditional.LateElseAfterFulfilment | predicament.js:60-69 | any number of `Else` calls after fulfilment fire nothing and leave the settlement as it was |
| Conditional.Tick | predicament.js:48-56 | the scheduled tick invokes the predicate, so afterwards it has been invoked exactly once and no tick remains; it leaves the consequent, the else-consequent, the rejection handlers, the promise and the calls untouched |
| Conditional.Callback | predicament.js:49-55 | a truthy `err` rejects with it and anything else fulfils with `val`; only the first callback after invocation settles, later ones change nothing |
| Conditional.RunKeepsValid | predicament.js:31-69 | for any sequence of events, the predicate is invoked at most once, the promise settles at most once and keeps its first settlement, calls are only ever appended, the consequent fires at most once and only on a truthy value, and on failure only the else-consequent fires, each time with exactly the error |
| Conditional.ElseChain | predicament.js:60-69 | a chain of `Else` calls before settlement keeps only the last else-consequent and one rejection handler per call |
| Conditional.DispatchInvokesOnce | predicament.js:48-56 | in a fluent `If(...).Else(...)` chain the predicate is invoked exactly once, whatever it calls back with |
| Conditional.DispatchTruthy | predicament.js:40-42 | a truthy value with a consequent set fires the consequent and nothing else |
| Conditional.DispatchOtherwise | predicament.js:40-46 | any other value fires the last else-consequent, if set, with no argument, and otherwise nothing; a truthy value with no consequent falls through to the else-consequent |
| Conditional.DispatchFailure | predicament.js:49-51 | a failure never fires the consequent; it fires the last else-consequent, if set, with exactly the error, once per `Else` call, and otherwise nothing |

## Left out

- `predicament(criteria)`, `toAsyncPredicate` and `errorFirstify` are thin wrappers over the `node-asyncify` library, which is not part of this model.
- `asyncify.constant(x)` is not part of this model. It is taken to be a predicate that calls back `(null, x)`.
- The `when.defer` promise and `process.nextTick` are reduced to a single settlement and one scheduled evaluation. Promise chaining and how a thenable resolution value is adopted are not modelled.
- `async.forEachSeries` is reduced to its observable behaviour: a left-to-right walk whose final callback runs only if every step calls `next`.
- The variadic argument handling (`toArray` and popping the callback) is replaced by an explicit list of combinants and a returned report.
- Promise handlers run synchronously: at settlement for handlers registered earlier, at registration for those registered later, each reading `_cfg` at that moment. This is the behaviour of a `when` whose `then` runs handlers at once on a settled promise. A Promises/A+ `when` runs them on a later tick, when they read the configuration current then: after a rejection, `Else(a); Else(b)` would then call `b` twice, where the model calls `a` and then `b`. The `when` version in use is not part of this model.
- Real concurrency and timing are not modelled. The arrival order of `all`/`any` completions is an input.
- A combinant that calls back while `all`/`any` is still starting combinants is not modelled. Such a callback can set `resolved`, and `var resolved = false` (predicament.js:113, 155) then resets it. A later stopping arrival would then report a second time, so at-most-once reporting holds only when every callback comes after the start loop.
- Raw combinants go through `asyncify.constant`. They are covered by the model only if that library calls back asynchronously; a synchronous callback falls under the previous item.
- Serial.Series assumes each invoked combinant calls back exactly once. The latch, by contrast, accepts any arrival sequence, including repeated or missing callbacks.
- Exceptions are not modelled: a combinant, predicate or continuation that throws, and a non-function truthy continuation being called.
- A predicate passed to `If` that is not a function is not modelled. The predicate is represented only by its completion.
- Numbers are integers. Floating point and `-0` are not represented; `NaN` is kept as a falsy value.
- The commented-out API sketches at the end of the test file are not implemented and are not modelled.
