# Unit-of-work transactions of the alerting store

This project models the unit-of-work combinators that the alerting store uses
to batch database work into a single transaction
(`pkg/services/ngalert/store/transaction.go`). A database operation acts on a
session and may return an error. `empty` is the operation that does nothing.
`compose` runs two operations in order and stops at the first error. A
`DBTransaction` is an immutable builder: `NewTransaction` starts with `empty`,
and each `Do` returns a new transaction whose work is the old work composed
with one more step. `Execute` hands the composed work to
`sqlstore.WithTransactionalDbSession`, whose behaviour is not part of this
model.

The model lives in one module, `Transaction` (`transaction.dfy`):

- The session is a type parameter `S`. An operation that changes the session
  in place becomes a function from the session before to an `Outcome`: the
  session after, and the error returned. The error type is a type parameter
  `E`; a nil error is `None`.
- `DBOperation<S, E>` is the function type `S -> Outcome<S, E>`.
- `DBTransaction` is a datatype holding the store (a type parameter `St`)
  and the work. Go's value receivers become plain values, so `Do` cannot
  change its receiver.
- `Run` is an independent reference semantics for a list of steps. It runs
  them left to right and stops at the first error. `Build(st, ws)` is the
  chain `NewTransaction(st).Do(ws[0])...Do(ws[n-1])`. The lemmas connect the
  builder to `Run`, and they prove the identity and associativity laws that
  the source's comments claim for `empty` and `compose`.

## Model

| member | source | states |
|---|---|---|
| `Transaction.Empty` | pkg/services/ngalert/store/transaction.go:39-42 | on every session, `empty` leaves the session unchanged and returns no error |
| `Transaction.Compose` | pkg/services/ngalert/store/transaction.go:44-53 | if `left` fails, the result is `left`'s error and session, so `right` never runs; if `left` succeeds, the result is `right` run on the session as `left` left it |
| `Transaction.LeftIdentity` | pkg/services/ngalert/store/transaction.go:39-53 | `compose(empty, w)` gives the same session and error as `w` on every session |
| `Transaction.RightIdentity` | pkg/services/ngalert/store/transaction.go:39-53 | `compose(w, empty)` gives the same session and error as `w` on every session |
| `Transaction.Associativity` | pkg/services/ngalert/store/transaction.go:44-53 | `compose(compose(a, b), c)` and `compose(a, compose(b, c))` agree on every session, as the "monad" comment claims |
| `Transaction.NewTransaction` | pkg/services/ngalert/store/transaction.go:21-26 | a new transaction keeps the given store, and its work succeeds without changing the session |
| `Transaction.Do` | pkg/services/ngalert/store/transaction.go:28-33 | the new transaction keeps the receiver's store; its work returns the old work's failure unchanged, and otherwise runs the new step on the session the old work left |
| `Transaction.Execute` | pkg/services/ngalert/store/transaction.go:35-37 | applies the transaction's work once to the session the store supplies and returns its error and the session it left |
| `Transaction.DoLaws` | pkg/services/ngalert/store/transaction.go:28-33 | `Do(a)` then `Do(b)` behaves like one `Do` of `compose(a, b)`, and `Do(empty)` changes nothing observable |
| `Transaction.RunConcat` | pkg/services/ngalert/store/transaction.go:45-53 | running two step lists back to back is running their concatenation, with the second list skipped when the first fails |
| `Transaction.RunSplit` | pkg/services/ngalert/store/transaction.go:45-53 | a run split at any point runs the prefix first and the suffix only if the prefix succeeded |
| `Transaction.BuildRuns` | pkg/services/ngalert/store/transaction.go:21-33 | `NewTransaction(st).Do(w1)...Do(wn)` keeps store `st`, and its work equals the reference run of `w1..wn` in call order |
| `Transaction.ExecuteBuilt` | pkg/services/ngalert/store/transaction.go:21-37 | executing a built transaction runs its steps in call order and stops at the first error; with no `Do` calls it succeeds and leaves the session unchanged |
| `Transaction.RunStopsAtFirstError` | pkg/services/ngalert/store/transaction.go:45-53 | a run fails exactly when some step fails after every earlier step succeeded; the result is then that step's error and session, so no later step ran |
| `Transaction.FirstFailure` | pkg/services/ngalert/store/transaction.go:45-53 | a failed run has a step index at which every earlier step succeeded and that step failed |

## Left out

- Execute: hands the work to `sqlstore.WithTransactionalDbSession`, whose body is not part of this model. The model applies the composed work exactly once to a session given as a parameter and returns the session with the error. It does not model the `ctx` argument, the store's commit and rollback, any retry of the work by the store, or reuse of an outer session already carried by `ctx`.
- Steps are total functions. A nil `DBOperation` (for instance `Do(nil)`, which `compose` only calls once the earlier work succeeded), the nil `work` and `st` of a zero-value `DBTransaction`, and a panic raised by a step (which propagates out of `compose` so that later steps never run) are not modelled.
- The session is an abstract value threaded through the steps. Sharing the same `*DBSession` pointer between steps is modelled by passing each step the session the previous step left. Any effect of a step outside the session is not modelled.
- The `UnitOfWork` interface is not modelled separately. `DBTransaction` is its only implementation, and `NewTransaction` and `Do` are modelled on `DBTransaction` directly.
- The TypeScript files in `public/` are not modelled. They are React UI (`DashboardsTree.tsx`, `EditDataSourceTitle.tsx`, `RuleTypePicker.tsx`) and a test (`links.test.ts`) of `getFieldLinksForExplore`. That function's implementation is not part of this model.
