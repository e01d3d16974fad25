/** The fallible task combinators of core/src/TeaCup/Tasks/TaskWithError.ts.

    A task is the tree of wrapper objects that `map`, `mapError`, `andThen`
    and the parallel join build; it does nothing until executed.  Its meaning
    is the sequence of results that `execute` hands to its callback, in order.
    Leaf tasks (whose classes are not part of this model) are described by
    exactly that sequence, and every primitive is taken to deliver
    synchronously, so that executing a parallel join sees all of t1's
    completions before t2's (t1 is launched first). */
module TaskWithError {
  import opened Results
  import Join

  datatype Task<!E, !R> =
    | Primitive(results: seq<Result<E, R>>)
    | Mapped(task: Task<E, R>, mapper: R -> R)
    | MappedErr(task: Task<E, R>, errMapper: E -> E)
    | Then(task: Task<E, R>, next: R -> Task<E, R>)
    | Parallel(t1: Task<E, R>, t2: Task<E, R>, combine: (R, R) -> R)

  /** A task that fails with `e`: it delivers `Err(e)` once. */
  function Fail<E, R>(e: E): Task<E, R>
  {
    Primitive([Err(e)])
  }

  /** A task that delivers `Ok(v)` once. */
  function Succeed<E, R>(v: R): Task<E, R>
  {
    Primitive([Ok(v)])
  }

  /** `task.map(f)`. */
  function Map<E, R>(t: Task<E, R>, f: R -> R): Task<E, R>
  {
    Mapped(t, f)
  }

  /** `task.mapError(g)`. */
  function MapError<E, R>(t: Task<E, R>, g: E -> E): Task<E, R>
  {
    MappedErr(t, g)
  }

  /** `task.andThen(f)`. */
  function AndThen<E, R>(t: Task<E, R>, f: R -> Task<E, R>): Task<E, R>
  {
    Then(t, f)
  }

  /** `r.map(f)` applied to each result, in order. */
  function MapAll<E, R>(rs: seq<Result<E, R>>, f: R -> R): (out: seq<Result<E, R>>)
    ensures |out| == |rs|
    ensures forall i :: 0 <= i < |rs| ==> out[i] == rs[i].Map(f)
  {
    if rs == [] then [] else [rs[0].Map(f)] + MapAll(rs[1..], f)
  }

  /** `r.mapError(g)` applied to each result, in order. */
  function MapErrAll<E, R>(rs: seq<Result<E, R>>, g: E -> E): (out: seq<Result<E, R>>)
    ensures |out| == |rs|
    ensures forall i :: 0 <= i < |rs| ==> out[i] == rs[i].MapError(g)
  {
    if rs == [] then [] else [rs[0].MapError(g)] + MapErrAll(rs[1..], g)
  }

  /** The deliveries of t1 and t2 as completions reaching the join. */
  function Lefts<E, R>(rs: seq<Result<E, R>>): seq<Join.Event<E, R, R>>
  {
    seq(|rs|, i requires 0 <= i < |rs| => Join.FromT1(rs[i]))
  }

  function Rights<E, R>(rs: seq<Result<E, R>>): seq<Join.Event<E, R, R>>
  {
    seq(|rs|, i requires 0 <= i < |rs| => Join.FromT2(rs[i]))
  }

  /** What `execute` hands to its callback, in order.  `fuel` bounds how many
      `andThen` continuations may be entered one inside another: a
      continuation entered with no fuel left delivers nothing. */
  function Deliveries<E, R>(t: Task<E, R>, fuel: nat): seq<Result<E, R>>
    decreases fuel, t, 1
  {
    match t
    case Primitive(rs) => rs
    case Mapped(inner, f) => MapAll(Deliveries(inner, fuel), f)
    case MappedErr(inner, g) => MapErrAll(Deliveries(inner, fuel), g)
    case Then(inner, _) => Continue(t, Deliveries(inner, fuel), fuel)
    case Parallel(t1, t2, f) =>
      Join.Run(Join.Initial(), Lefts(Deliveries(t1, fuel)) + Rights(Deliveries(t2, fuel)), f).1
  }

  /** `TEThen`'s callback, once per result of the inner task: an `Ok(v)` runs
      `next(v)` and forwards its deliveries, an `Err(e)` is delivered as is. */
  function Continue<E, R>(parent: Task<E, R>, rs: seq<Result<E, R>>, fuel: nat): seq<Result<E, R>>
    requires parent.Then?
    decreases fuel, parent, 0, |rs|
  {
    if rs == [] then []
    else
      (match rs[0]
       case Err(e) => [Err(e)]
       case Ok(v) => if fuel == 0 then [] else Deliveries(parent.next(v), fuel - 1))
      + Continue(parent, rs[1..], fuel)
  }

  // ---------------------------------------------------------------------
  // map and mapError
  // ---------------------------------------------------------------------

  /** `map(f)` makes one delivery per inner delivery: the same tag, the `Ok`
      payload transformed, an `Err` passed through unchanged. */
  lemma MapForwardsEachDelivery<E, R>(t: Task<E, R>, f: R -> R, fuel: nat)
    ensures var inner, outer := Deliveries(t, fuel), Deliveries(Map(t, f), fuel);
            && |outer| == |inner|
            && forall i :: 0 <= i < |inner| ==>
                 && (outer[i].Ok? <==> inner[i].Ok?)
                 && (inner[i].Ok? ==> outer[i].value == f(inner[i].value))
                 && (inner[i].Err? ==> outer[i] == inner[i])
  {
  }

  /** `mapError(g)` makes one delivery per inner delivery: the same tag, the
      `Err` payload transformed, an `Ok` passed through unchanged. */
  lemma MapErrorForwardsEachDelivery<E, R>(t: Task<E, R>, g: E -> E, fuel: nat)
    ensures var inner, outer := Deliveries(t, fuel), Deliveries(MapError(t, g), fuel);
            && |outer| == |inner|
            && forall i :: 0 <= i < |inner| ==>
                 && (outer[i].Err? <==> inner[i].Err?)
                 && (inner[i].Err? ==> outer[i].err == g(inner[i].err))
                 && (inner[i].Ok? ==> outer[i] == inner[i])
  {
  }

  /** Mapping twice delivers what mapping once with the composition delivers. */
  lemma MapComposes<E, R>(t: Task<E, R>, f: R -> R, g: R -> R, fuel: nat)
    ensures Deliveries(Map(Map(t, f), g), fuel) == Deliveries(Map(t, x => g(f(x))), fuel)
  {
    var d := Deliveries(t, fuel);
    var a, b := Deliveries(Map(Map(t, f), g), fuel), Deliveries(Map(t, x => g(f(x))), fuel);
    assert Deliveries(Map(t, f), fuel) == MapAll(d, f);
    assert a == MapAll(MapAll(d, f), g);
    assert b == MapAll(d, x => g(f(x)));
    forall i | 0 <= i < |a| ensures a[i] == b[i] {
    }
  }

  /** The same for `mapError`. */
  lemma MapErrorComposes<E, R>(t: Task<E, R>, f: E -> E, g: E -> E, fuel: nat)
    ensures Deliveries(MapError(MapError(t, f), g), fuel) == Deliveries(MapError(t, x => g(f(x))), fuel)
  {
    var d := Deliveries(t, fuel);
    var a, b := Deliveries(MapError(MapError(t, f), g), fuel), Deliveries(MapError(t, x => g(f(x))), fuel);
    assert Deliveries(MapError(t, f), fuel) == MapErrAll(d, f);
    assert a == MapErrAll(MapErrAll(d, f), g);
    assert b == MapErrAll(d, x => g(f(x)));
    forall i | 0 <= i < |a| ensures a[i] == b[i] {
    }
  }

  // ---------------------------------------------------------------------
  // andThen
  // ---------------------------------------------------------------------

  /** `TEThen`'s callback handles the inner results one after the other. */
  lemma {:induction false} ContinueAppend<E, R>(parent: Task<E, R>, xs: seq<Result<E, R>>, ys: seq<Result<E, R>>, fuel: nat)
    requires parent.Then?
    ensures Continue(parent, xs + ys, fuel) == Continue(parent, xs, fuel) + Continue(parent, ys, fuel)
    decreases |xs|
  {
    if xs == [] {
      assert xs + ys == ys;
    } else {
      assert (xs + ys)[0] == xs[0];
      assert (xs + ys)[1..] == xs[1..] + ys;
      ContinueAppend(parent, xs[1..], ys, fuel);
    }
  }

  /** Inner results that are all errors reach the callback unchanged, and the
      continuation is never run. */
  lemma {:induction false} ContinueOnErrors<E, R>(parent: Task<E, R>, rs: seq<Result<E, R>>, fuel: nat)
    requires parent.Then?
    requires forall i :: 0 <= i < |rs| ==> rs[i].Err?
    ensures Continue(parent, rs, fuel) == rs
    decreases |rs|
  {
    if rs != [] {
      ContinueOnErrors(parent, rs[1..], fuel);
      assert rs == [rs[0]] + rs[1..];
    }
  }

  /** `andThen(f)` short-circuits: a task that only delivers errors delivers
      the same errors after `andThen(f)`, whatever `f` is. */
  lemma AndThenShortCircuits<E, R>(t: Task<E, R>, f: R -> Task<E, R>, fuel: nat)
    requires forall i :: 0 <= i < |Deliveries(t, fuel)| ==> Deliveries(t, fuel)[i].Err?
    ensures Deliveries(AndThen(t, f), fuel) == Deliveries(t, fuel)
  {
    ContinueOnErrors(Then(t, f), Deliveries(t, fuel), fuel);
  }

  /** In particular `fail(e).andThen(f)` delivers `Err(e)` and nothing else. */
  lemma AndThenOnFail<E, R>(e: E, f: R -> Task<E, R>, fuel: nat)
    ensures Deliveries(AndThen(Fail(e), f), fuel) == [Err(e)]
  {
    AndThenShortCircuits(Fail(e), f, fuel);
  }

  /** An inner task that delivers `Ok(v)` once makes `andThen(f)` forward
      exactly the deliveries of `f(v)`; with `succeed(v)` this is left identity. */
  lemma AndThenForwards<E, R>(t: Task<E, R>, f: R -> Task<E, R>, v: R, fuel: nat)
    requires Deliveries(t, fuel + 1) == [Ok(v)]
    ensures Deliveries(AndThen(t, f), fuel + 1) == Deliveries(f(v), fuel)
  {
    var rs := Deliveries(t, fuel + 1);
    assert rs[1..] == [];
    assert Continue(Then(t, f), rs, fuel + 1) == Deliveries(f(v), fuel) + [];
  }

  lemma AndThenLeftIdentity<E, R>(v: R, f: R -> Task<E, R>, fuel: nat)
    ensures Deliveries(AndThen(Succeed(v), f), fuel + 1) == Deliveries(f(v), fuel)
  {
    AndThenForwards(Succeed(v), f, v, fuel);
  }

  /** Left identity at a single fuel level, once `f(v)` delivers exactly once
      within the bound. */
  lemma AndThenLeftIdentityStable<E, R(!new)>(v: R, f: R -> Task<E, R>, fuel: nat)
    requires DeliversOnce(f(v), fuel)
    ensures Deliveries(AndThen(Succeed(v), f), fuel + 1) == Deliveries(f(v), fuel + 1)
  {
    AndThenLeftIdentity(v, f, fuel);
    FuelSuffices(f(v), fuel);
  }

  // ---------------------------------------------------------------------
  // the parallel join as a task
  // ---------------------------------------------------------------------

  /** A join's deliveries are the join's run over t1's deliveries followed by t2's. */
  lemma ParallelJoinsDeliveries<E, R>(t1: Task<E, R>, t2: Task<E, R>, f: (R, R) -> R, fuel: nat)
    ensures Deliveries(Parallel(t1, t2, f), fuel) ==
              Join.Run(Join.Initial(), Lefts(Deliveries(t1, fuel)) + Rights(Deliveries(t2, fuel)), f).1
  {
  }

  /** One delivery on each side reaches the join as two completions, t1's
      first, and the join makes one invocation. */
  lemma JoinOfSingles<E, R>(d1: seq<Result<E, R>>, d2: seq<Result<E, R>>, f: (R, R) -> R)
    requires |d1| == 1 && |d2| == 1
    ensures Join.Run(Join.Initial(), Lefts(d1) + Rights(d2), f).1 == [Join.Outcome(d1[0], d2[0], f)]
  {
    assert Lefts(d1) + Rights(d2) == [Join.FromT1(d1[0]), Join.FromT2(d2[0])];
    Join.ExactlyOneDelivery(d1[0], d2[0], f);
  }

  /** Two tasks that deliver once each make the join deliver once: t1's error
      if it fails (t1 is launched first, so it wins over an error of t2), else
      t2's error, else `Ok(f(a, b))`. */
  lemma ParallelDeliversOnce<E, R>(t1: Task<E, R>, t2: Task<E, R>, f: (R, R) -> R, fuel: nat)
    requires |Deliveries(t1, fuel)| == 1 && |Deliveries(t2, fuel)| == 1
    ensures Deliveries(Parallel(t1, t2, f), fuel) ==
              [Join.Outcome(Deliveries(t1, fuel)[0], Deliveries(t2, fuel)[0], f)]
  {
    ParallelJoinsDeliveries(t1, t2, f, fuel);
    JoinOfSingles(Deliveries(t1, fuel), Deliveries(t2, fuel), f);
  }

  /** Both sides failing: only t1's error reaches the callback. */
  lemma ParallelBothFail<E, R>(e1: E, e2: E, f: (R, R) -> R, fuel: nat)
    ensures Deliveries(Parallel(Fail(e1), Fail(e2), f), fuel) == [Err(e1)]
  {
    ParallelDeliversOnce(Fail(e1), Fail(e2), f, fuel);
  }

  // ---------------------------------------------------------------------
  // exactly one delivery
  // ---------------------------------------------------------------------

  /** Every leaf delivers exactly once and every continuation can be entered
      within `fuel`. */
  ghost predicate DeliversOnce<E, R(!new)>(t: Task<E, R>, fuel: nat)
    decreases fuel, t
  {
    match t
    case Primitive(rs) => |rs| == 1
    case Mapped(inner, _) => DeliversOnce(inner, fuel)
    case MappedErr(inner, _) => DeliversOnce(inner, fuel)
    case Then(inner, next) =>
      fuel > 0 && DeliversOnce(inner, fuel) && forall v :: DeliversOnce(next(v), fuel - 1)
    case Parallel(t1, t2, _) => DeliversOnce(t1, fuel) && DeliversOnce(t2, fuel)
  }

  /** Composing tasks that deliver exactly once gives a task that delivers
      exactly once. */
  lemma {:induction false} ExactlyOnce<E, R(!new)>(t: Task<E, R>, fuel: nat)
    requires DeliversOnce(t, fuel)
    ensures |Deliveries(t, fuel)| == 1
    decreases fuel, t
  {
    match t
    case Primitive(_) =>
    case Mapped(inner, _) => ExactlyOnce(inner, fuel);
    case MappedErr(inner, _) => ExactlyOnce(inner, fuel);
    case Then(inner, next) =>
      ExactlyOnce(inner, fuel);
      var rs := Deliveries(inner, fuel);
      assert rs[1..] == [];
      assert Continue(t, rs, fuel) == Continue(t, [rs[0]], fuel) + Continue(t, [], fuel);
      if rs[0].Ok? {
        ExactlyOnce(next(rs[0].value), fuel - 1);
      }
    case Parallel(t1, t2, f) =>
      ExactlyOnce(t1, fuel);
      ExactlyOnce(t2, fuel);
      ParallelDeliversOnce(t1, t2, f, fuel);
  }

  /** Once a task delivers exactly once within `fuel`, more fuel changes
      nothing: the meaning has stopped depending on the bound. */
  lemma {:induction false} FuelSuffices<E, R(!new)>(t: Task<E, R>, fuel: nat)
    requires DeliversOnce(t, fuel)
    ensures DeliversOnce(t, fuel + 1)
    ensures Deliveries(t, fuel + 1) == Deliveries(t, fuel)
    decreases fuel, t
  {
    match t
    case Primitive(_) =>
    case Mapped(inner, f) =>
      FuelSuffices(inner, fuel);
      assert Deliveries(t, fuel + 1) == MapAll(Deliveries(inner, fuel + 1), f);
      assert Deliveries(t, fuel) == MapAll(Deliveries(inner, fuel), f);
    case MappedErr(inner, g) =>
      FuelSuffices(inner, fuel);
      assert Deliveries(t, fuel + 1) == MapErrAll(Deliveries(inner, fuel + 1), g);
      assert Deliveries(t, fuel) == MapErrAll(Deliveries(inner, fuel), g);
    case Then(inner, next) =>
      FuelSuffices(inner, fuel);
      forall v
        ensures DeliversOnce(next(v), fuel)
      {
        FuelSuffices(next(v), fuel - 1);
      }
      ExactlyOnce(inner, fuel);
      var rs := Deliveries(inner, fuel);
      assert Deliveries(t, fuel + 1) == Continue(t, rs, fuel + 1);
      assert Deliveries(t, fuel) == Continue(t, rs, fuel);
      assert rs[1..] == [];
      if rs[0].Err? {
        assert Continue(t, rs, fuel + 1) == [rs[0]] + Continue(t, [], fuel + 1);
        assert Continue(t, rs, fuel) == [rs[0]] + Continue(t, [], fuel);
      } else {
        var v := rs[0].value;
        FuelSuffices(next(v), fuel - 1);
        assert Continue(t, rs, fuel + 1) == Deliveries(next(v), fuel) + Continue(t, [], fuel + 1);
        assert Continue(t, rs, fuel) == Deliveries(next(v), fuel - 1) + Continue(t, [], fuel);
      }
    case Parallel(t1, t2, f) =>
      FuelSuffices(t1, fuel);
      FuelSuffices(t2, fuel);
      assert Deliveries(t, fuel + 1) ==
             Join.Run(Join.Initial(), Lefts(Deliveries(t1, fuel + 1)) + Rights(Deliveries(t2, fuel + 1)), f).1;
      assert Deliveries(t, fuel) ==
             Join.Run(Join.Initial(), Lefts(Deliveries(t1, fuel)) + Rights(Deliveries(t2, fuel)), f).1;
  }

  // ---------------------------------------------------------------------
  // attempt
  // ---------------------------------------------------------------------

  /** `TECmd`: a task paired with the function that turns its result into a
      message. */
  datatype Command<!E, !R, M> = TECmd(task: Task<E, R>, toMsg: Result<E, R> -> M)

  /** `task.attempt(toMsg)`. */
  function Attempt<E, R, M>(t: Task<E, R>, toMsg: Result<E, R> -> M): Command<E, R, M>
  {
    TECmd(t, toMsg)
  }

  /** `toMsg` applied to each result, in order. */
  function ToMessages<E, R, M>(rs: seq<Result<E, R>>, toMsg: Result<E, R> -> M): (ms: seq<M>)
    ensures |ms| == |rs|
    ensures forall i :: 0 <= i < |rs| ==> ms[i] == toMsg(rs[i])
  {
    if rs == [] then [] else [toMsg(rs[0])] + ToMessages(rs[1..], toMsg)
  }

  /** The messages `TECmd.execute` passes to `dispatch`, in order. */
  function Dispatched<E, R, M>(c: Command<E, R, M>, fuel: nat): seq<M>
  {
    ToMessages(Deliveries(c.task, fuel), c.toMsg)
  }

  /** Executing `t.attempt(toMsg)` dispatches `toMsg(r)` once per result `r`
      of `t`; a task that delivers once dispatches one message. */
  lemma AttemptDispatchesEachResult<E, R(!new), M>(t: Task<E, R>, toMsg: Result<E, R> -> M, fuel: nat)
    ensures |Dispatched(Attempt(t, toMsg), fuel)| == |Deliveries(t, fuel)|
    ensures forall i :: 0 <= i < |Deliveries(t, fuel)| ==>
              Dispatched(Attempt(t, toMsg), fuel)[i] == toMsg(Deliveries(t, fuel)[i])
    ensures DeliversOnce(t, fuel) ==>
              |Deliveries(t, fuel)| == 1 &&
              Dispatched(Attempt(t, toMsg), fuel) == [toMsg(Deliveries(t, fuel)[0])]
  {
    if DeliversOnce(t, fuel) {
      ExactlyOnce(t, fuel);
    }
  }
}
