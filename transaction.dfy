/** The unit-of-work combinators of the alerting store.

    A database operation acts on a session and may fail. Steps are chained
    with `Compose`, which runs them in order and stops at the first error;
    `Empty` is the step that does nothing. A `DBTransaction` is an immutable
    builder: `NewTransaction` starts with `Empty`, and every `Do` returns a new
    transaction whose work is the old work composed with one more step.

    The session is a type parameter `S`: an operation that updates the session
    in place is modelled as a function from the session before to the session
    after, together with the error it returned. The error type is a type
    parameter `E`, and `None` stands for a nil error.
 */
module Transaction {

  datatype Option<+T> = None | Some(value: T)

  /** What a database operation leaves behind: the session as the operation
      left it, and the error it returned. */
  datatype Outcome<S, E> = Outcome(session: S, err: Option<E>) {
    predicate Failed() { err.Some? }
  }

  /** A step that acts on a database session and may return an error. */
  type DBOperation<!S, E> = S -> Outcome<S, E>

  /** The trivial operation: it leaves the session as it was and succeeds. */
  function Empty<S(!new), E>(): (r: DBOperation<S, E>)
    ensures forall s :: r(s).session == s && !r(s).Failed()
  {
    s => Outcome(s, None)
  }

  /** Runs `left` and then `right` on the same session, stopping at the first
      error. */
  function Compose<S(!new), E>(left: DBOperation<S, E>, right: DBOperation<S, E>): (r: DBOperation<S, E>)
    // a failing `left` is the whole answer: `right` never runs
    ensures forall s :: left(s).Failed() ==> r(s) == left(s)
    // a succeeding `left` hands the session, as it left it, to `right`
    ensures forall s :: !left(s).Failed() ==> r(s) == right(left(s).session)
  {
    s => var o := left(s); if o.Failed() then o else right(o.session)
  }

  /** `Empty` is a left identity of `Compose`. */
  lemma LeftIdentity<S(!new), E>(w: DBOperation<S, E>, s: S)
    ensures Compose(Empty(), w)(s) == w(s)
  {
  }

  /** `Empty` is a right identity of `Compose`. */
  lemma RightIdentity<S(!new), E>(w: DBOperation<S, E>, s: S)
    ensures Compose(w, Empty())(s) == w(s)
  {
  }

  /** `Compose` is associative: grouping does not change the session or the
      error. */
  lemma Associativity<S(!new), E>(a: DBOperation<S, E>, b: DBOperation<S, E>, c: DBOperation<S, E>, s: S)
    ensures Compose(Compose(a, b), c)(s) == Compose(a, Compose(b, c))(s)
  {
  }

  /** The builder. `st` is the store the work will eventually run against. */
  datatype DBTransaction<St, !S, E> = DBTransaction(st: St, work: DBOperation<S, E>)

  /** A fresh transaction over `st` whose work does nothing. */
  function NewTransaction<St, S(!new), E>(st: St): (r: DBTransaction<St, S, E>)
    ensures r.st == st
    ensures forall s :: r.work(s) == Outcome(s, None)
  {
    DBTransaction(st, Empty())
  }

  /** A new transaction over the same store whose work is the receiver's work
      followed by `work`. The receiver is a value and is not changed. */
  function Do<St, S(!new), E>(xact: DBTransaction<St, S, E>, work: DBOperation<S, E>): (r: DBTransaction<St, S, E>)
    ensures r.st == xact.st
    ensures forall s :: xact.work(s).Failed() ==> r.work(s) == xact.work(s)
    ensures forall s :: !xact.work(s).Failed() ==> r.work(s) == work(xact.work(s).session)
  {
    DBTransaction(xact.st, Compose(xact.work, work))
  }

  /** Two `Do` calls in a row behave like one `Do` of the two steps composed,
      and a `Do` of `Empty` changes nothing observable. */
  lemma DoLaws<St, S(!new), E>(xact: DBTransaction<St, S, E>, a: DBOperation<S, E>, b: DBOperation<S, E>, s: S)
    ensures Do(Do(xact, a), b).st == Do(xact, Compose(a, b)).st == xact.st
    ensures Do(Do(xact, a), b).work(s) == Do(xact, Compose(a, b)).work(s)
    ensures Do(xact, Empty()).work(s) == xact.work(s)
  {
    Associativity(xact.work, a, b, s);
    RightIdentity(xact.work, s);
  }

  /** Hands the composed work to the store, modelled as applying it once to
      the session `s` that the store supplies. What the store does around the
      work (its context, commit, rollback, retries or an outer session) is not
      part of this model. */
  function Execute<St, S(!new), E>(xact: DBTransaction<St, S, E>, s: S): (r: Outcome<S, E>)
    // the error and the session are those the transaction's work produced
    ensures r.err == xact.work(s).err && r.session == xact.work(s).session
  {
    xact.work(s)
  }

  /** Reference semantics of a list of steps: run them left to right on the
      session, stopping at the first step that returns an error. */
  function Run<S(!new), E>(ws: seq<DBOperation<S, E>>, s: S): Outcome<S, E>
  {
    if ws == [] then Outcome(s, None)
    else
      var o := ws[0](s);
      if o.Failed() then o else Run(ws[1..], o.session)
  }

  /** The transaction `NewTransaction(st).Do(ws[0]).Do(ws[1])...Do(ws[|ws|-1])`. */
  function Build<St, S(!new), E>(st: St, ws: seq<DBOperation<S, E>>): DBTransaction<St, S, E>
  {
    if ws == [] then NewTransaction(st)
    else Do(Build(st, ws[..|ws| - 1]), ws[|ws| - 1])
  }

  /** Running two lists one after the other is running their concatenation. */
  lemma {:induction false} RunConcat<S(!new), E>(xs: seq<DBOperation<S, E>>, ys: seq<DBOperation<S, E>>, s: S)
    ensures Run(xs + ys, s) == (var o := Run(xs, s); if o.Failed() then o else Run(ys, o.session))
  {
    if xs != [] {
      assert (xs + ys)[0] == xs[0];
      assert (xs + ys)[1..] == xs[1..] + ys;
      var o := xs[0](s);
      if !o.Failed() {
        RunConcat(xs[1..], ys, o.session);
      }
    } else {
      assert xs + ys == ys;
    }
  }

  /** Splitting a run at any point: the first `k` steps run first, and the rest
      run only if those succeeded. */
  lemma RunSplit<S(!new), E>(ws: seq<DBOperation<S, E>>, k: nat, s: S)
    requires k <= |ws|
    ensures Run(ws, s) == (var o := Run(ws[..k], s); if o.Failed() then o else Run(ws[k..], o.session))
  {
    assert ws[..k] + ws[k..] == ws;
    RunConcat(ws[..k], ws[k..], s);
  }

  /** A built transaction keeps its store and its work is the reference run
      of its steps in call order. */
  lemma {:induction false} BuildRuns<St, S(!new), E>(st: St, ws: seq<DBOperation<S, E>>, s: S)
    ensures Build(st, ws).st == st
    ensures Build(st, ws).work(s) == Run(ws, s)
  {
    if ws != [] {
      var init, last := ws[..|ws| - 1], ws[|ws| - 1];
      var prev := Build(st, init);
      BuildRuns(st, init, s);
      assert init + [last] == ws;
      RunConcat(init, [last], s);
      var o := Run(init, s);
      assert prev.work(s) == o;
      if o.Failed() {
        assert Run(ws, s) == o;
      } else {
        var p := last(o.session);
        RunSingle(last, o.session);
        assert Run(ws, s) == p;
      }
    }
  }

  /** Running a single step is running that step. */
  lemma RunSingle<S(!new), E>(w: DBOperation<S, E>, s: S)
    ensures Run([w], s) == w(s)
  {
  }

  /** Executing `NewTransaction(st).Do(ws[0])...Do(ws[|ws|-1])` runs the steps
      in call order and stops at the first error; with no steps it succeeds
      and leaves the session unchanged. */
  lemma ExecuteBuilt<St, S(!new), E>(st: St, ws: seq<DBOperation<S, E>>, s: S)
    ensures Execute(Build(st, ws), s) == Run(ws, s)
    ensures ws == [] ==> Execute(Build(st, ws), s) == Outcome(s, None)
  {
    BuildRuns(st, ws, s);
  }

  /** Step `k` is the one that fails: every step before it succeeded, and it
      returned an error on the session they left behind. */
  predicate FailsAt<S(!new), E>(ws: seq<DBOperation<S, E>>, k: nat, s: S)
    requires k < |ws|
  {
    !Run(ws[..k], s).Failed() && ws[k](Run(ws[..k], s).session).Failed()
  }

  /** A run fails exactly when some step fails after all earlier ones
      succeeded, and then its outcome is that step's: its error and the
      session as that step left it, so no later step has run. */
  lemma {:induction false} RunStopsAtFirstError<S(!new), E>(ws: seq<DBOperation<S, E>>, s: S)
    ensures Run(ws, s).Failed() <==> exists k: nat :: k < |ws| && FailsAt(ws, k, s)
    ensures forall k: nat :: k < |ws| && FailsAt(ws, k, s) ==> Run(ws, s) == ws[k](Run(ws[..k], s).session)
  {
    forall k: nat | k < |ws| && FailsAt(ws, k, s)
      ensures Run(ws, s) == ws[k](Run(ws[..k], s).session)
    {
      RunSplit(ws, k, s);
      var rest := ws[k..];
      assert rest[0] == ws[k];
    }
    if Run(ws, s).Failed() {
      var k := FirstFailure(ws, s);
    }
  }

  /** The index of the failing step of a failed run. */
  lemma {:induction false} FirstFailure<S(!new), E>(ws: seq<DBOperation<S, E>>, s: S) returns (k: nat)
    requires Run(ws, s).Failed()
    ensures k < |ws| && FailsAt(ws, k, s)
  {
    var o := ws[0](s);
    if o.Failed() {
      k := 0;
      assert ws[..0] == [];
    } else {
      var j := FirstFailure(ws[1..], o.session);
      k := j + 1;
      assert ws[1..][..j] == ws[..k][1..];
      assert ws[1..][j] == ws[k];
    }
  }
}
