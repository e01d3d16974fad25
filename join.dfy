/** The parallel join of core/src/TeaCup/Tasks/TParallel.ts.

    `TParallel.execute` launches t1 and then t2 and keeps three mutable slots
    (`ra`, `rb`, `error`) that the two completion callbacks update.  The pure
    part of this module describes one completion as a step on those slots and
    a whole run as a fold of steps over a trace of completions, in whatever
    order they arrive; the classes at the end hold the slots as fields and are
    proved against those steps. */
module Join {
  import opened Results

  // ---------------------------------------------------------------------
  // TParallel: a fallible t1, and a t2 that is fallible or infallible
  // ---------------------------------------------------------------------

  /** The three local slots of `TParallel.execute`. */
  datatype Slots<E, A, B> = Slots(ra: Maybe<A>, rb: Maybe<B>, error: Maybe<E>)

  function Initial<E, A, B>(): Slots<E, A, B>
  {
    Slots(Nothing, Nothing, Nothing)
  }

  /** One completion reaching the join: t1's callback (installed by `handle`),
      t2's callback when t2 is a `TaskWithError` (also installed by `handle`),
      or t2's callback when t2 is a `TaskWithoutError`. */
  datatype Event<E, A, B> =
    | FromT1(r1: Result<E, A>)
    | FromT2(r2: Result<E, B>)
    | FromT2Value(b: B)

  /** The callback invocation a step triggers, as a sequence of zero or one. */
  function Emitted<T>(o: Maybe<T>): seq<T>
  {
    if o.Just? then [o.value] else []
  }

  /** `done()`: fires `Ok(f(a, b))` unless an error was seen or a slot is empty. */
  function Done<E, A, B, R>(s: Slots<E, A, B>, f: (A, B) -> R): Maybe<Result<E, R>>
  {
    if s.error.Just? || s.ra.Nothing? || s.rb.Nothing? then Nothing
    else Just(Ok(f(s.ra.value, s.rb.value)))
  }

  /** One completion: the new slots and the invocation of the final callback it
      triggers, if any. */
  function Step<E, A, B, R>(s: Slots<E, A, B>, ev: Event<E, A, B>, f: (A, B) -> R)
    : (r: (Slots<E, A, B>, Maybe<Result<E, R>>))
    // once an error is recorded it stays, and fallible completions are ignored
    ensures s.error.Just? ==> r.0.error == s.error
    ensures s.error.Just? && !ev.FromT2Value? ==> r == (s, Nothing)
    // each side only ever writes its own slot
    ensures ev.FromT1? ==> r.0.rb == s.rb
    ensures !ev.FromT1? ==> r.0.ra == s.ra
    // an `Ok` is only emitted from two filled slots and no error
    ensures r.1.Just? && r.1.value.Ok? ==>
              r.0.error.Nothing? && r.0.ra.Just? && r.0.rb.Just? &&
              r.1.value.value == f(r.0.ra.value, r.0.rb.value)
    // an `Err` is emitted only as the first error, which is recorded
    ensures r.1.Just? && r.1.value.Err? ==>
              s.error.Nothing? && ErrOf(ev) == Just(r.1.value.err) && r.0.error == ErrOf(ev)
  {
    match ev
    case FromT1(r) =>
      if s.error.Just? then (s, Nothing)
      else (match r
            case Err(e) => (s.(error := Just(e)), Just(Err(e)))
            case Ok(a) =>
              var s' := s.(ra := Just(a));
              (s', Done(s', f)))
    case FromT2(r) =>
      if s.error.Just? then (s, Nothing)
      else (match r
            case Err(e) => (s.(error := Just(e)), Just(Err(e)))
            case Ok(b) =>
              var s' := s.(rb := Just(b));
              (s', Done(s', f)))
    case FromT2Value(b) =>
      var s' := s.(rb := Just(b));
      (s', Done(s', f))
  }

  /** The slots after a trace of completions and every callback invocation
      made along the way, in order. */
  function Run<E, A, B, R>(s: Slots<E, A, B>, trace: seq<Event<E, A, B>>, f: (A, B) -> R)
    : (r: (Slots<E, A, B>, seq<Result<E, R>>))
    ensures |r.1| <= |trace|
    decreases |trace|
  {
    if trace == [] then (s, [])
    else
      var before := Run(s, trace[..|trace| - 1], f);
      var after := Step(before.0, trace[|trace| - 1], f);
      (after.0, before.1 + Emitted(after.1))
  }

  /** A run extended by one completion. */
  lemma RunSnoc<E, A, B, R>(s: Slots<E, A, B>, trace: seq<Event<E, A, B>>, ev: Event<E, A, B>, f: (A, B) -> R)
    ensures var before := Run(s, trace, f);
            var after := Step(before.0, ev, f);
            Run(s, trace + [ev], f) == (after.0, before.1 + Emitted(after.1))
  {
    assert (trace + [ev])[..|trace|] == trace;
  }

  /** A run of two completions: two steps, invocations in order. */
  lemma RunPair<E, A, B, R>(s: Slots<E, A, B>, x: Event<E, A, B>, y: Event<E, A, B>, f: (A, B) -> R)
    ensures var first := Step(s, x, f);
            var second := Step(first.0, y, f);
            Run(s, [x, y], f) == (second.0, Emitted(first.1) + Emitted(second.1))
  {
    var first := Step(s, x, f);
    var second := Step(first.0, y, f);
    RunSnoc(s, [], x, f);
    assert [] + [x] == [x];
    assert Run(s, [], f) == (s, []);
    assert [] + Emitted(first.1) == Emitted(first.1);
    assert Run(s, [x], f) == (first.0, Emitted(first.1));
    RunSnoc(s, [x], y, f);
    assert [x] + [y] == [x, y];
  }

  /** The error an event carries, if it is an `Err` completion. */
  function ErrOf<E, A, B>(ev: Event<E, A, B>): Maybe<E>
  {
    match ev
    case FromT1(r) => if r.Err? then Just(r.err) else Nothing
    case FromT2(r) => if r.Err? then Just(r.err) else Nothing
    case FromT2Value(_) => Nothing
  }

  /** The error of the earliest `Err` completion of the trace. */
  function FirstErr<E, A, B>(trace: seq<Event<E, A, B>>): Maybe<E>
  {
    if trace == [] then Nothing
    else if ErrOf(trace[0]).Just? then ErrOf(trace[0])
    else FirstErr(trace[1..])
  }

  /** The earliest error of a longer trace. */
  lemma {:induction false} FirstErrSnoc<E, A, B>(trace: seq<Event<E, A, B>>, ev: Event<E, A, B>)
    ensures FirstErr(trace + [ev]) == if FirstErr(trace).Just? then FirstErr(trace) else ErrOf(ev)
  {
    if trace == [] {
      assert [ev][1..] == [];
    } else {
      assert (trace + [ev])[0] == trace[0];
      assert (trace + [ev])[1..] == trace[1..] + [ev];
      FirstErrSnoc(trace[1..], ev);
    }
  }

  /** First error wins: whatever the order of the completions, the `error` slot
      holds the earliest `Err` of the trace, exactly one `Err` reaches the
      callback when there is one (none otherwise), and it is the last thing the
      callback ever receives. */
  lemma {:induction false} FirstErrorWins<E, A, B, R>(trace: seq<Event<E, A, B>>, f: (A, B) -> R)
    ensures Run(Initial(), trace, f).0.error == FirstErr(trace)
    ensures ErrCount(Run(Initial(), trace, f).1) == if FirstErr(trace).Just? then 1 else 0
    ensures FirstErr(trace).Just? ==>
              var outs := Run(Initial(), trace, f).1;
              |outs| > 0 && outs[|outs| - 1] == Err(FirstErr(trace).value)
    decreases |trace|
  {
    if trace != [] {
      var p, ev := trace[..|trace| - 1], trace[|trace| - 1];
      assert trace == p + [ev];
      FirstErrorWins(p, f);
      FirstErrSnoc(p, ev);
      var before := Run(Initial(), p, f);
      var after := Step(before.0, ev, f);
      ErrCountAppend(before.1, Emitted(after.1));
      assert ErrCount(Emitted(after.1)) == (if after.1.Just? && after.1.value.Err? then 1 else 0);
    }
  }

  /** An event that fills `ra` with `a`. */
  ghost predicate FillsRa<E, A, B>(ev: Event<E, A, B>, a: A)
  {
    ev == FromT1(Ok(a))
  }

  /** An event that fills `rb` with `b`. */
  ghost predicate FillsRb<E, A, B>(ev: Event<E, A, B>, b: B)
  {
    ev == FromT2(Ok(b)) || ev == FromT2Value(b)
  }

  /** What is in the slots came from the matching side. */
  lemma {:induction false} SlotsComeFromTheirSide<E, A, B, R>(trace: seq<Event<E, A, B>>, f: (A, B) -> R)
    ensures var s := Run(Initial(), trace, f).0;
            && (s.ra.Just? ==> exists i :: 0 <= i < |trace| && FillsRa(trace[i], s.ra.value))
            && (s.rb.Just? ==> exists i :: 0 <= i < |trace| && FillsRb(trace[i], s.rb.value))
    decreases |trace|
  {
    if trace != [] {
      var p := trace[..|trace| - 1];
      SlotsComeFromTheirSide(p, f);
      var s := Run(Initial(), p, f).0;
      if s.ra.Just? {
        var i :| 0 <= i < |p| && FillsRa(p[i], s.ra.value);
        assert trace[i] == p[i];
      }
      if s.rb.Just? {
        var i :| 0 <= i < |p| && FillsRb(p[i], s.rb.value);
        assert trace[i] == p[i];
      }
    }
  }

  /** `Ok` is only ever delivered as `f(a, b)` with `a` an `Ok` payload of t1
      and `b` a value t2 completed with, and only while no error has been seen. */
  lemma {:induction false} OkCombinesBothSides<E, A, B, R>(trace: seq<Event<E, A, B>>, f: (A, B) -> R)
    ensures var outs := Run(Initial(), trace, f).1;
            forall k :: 0 <= k < |outs| && outs[k].Ok? ==>
              exists i, j :: 0 <= i < |trace| && 0 <= j < |trace| &&
                exists a, b :: FillsRa(trace[i], a) && FillsRb(trace[j], b) && outs[k].value == f(a, b)
    ensures var outs := Run(Initial(), trace, f).1;
            forall k :: 0 <= k < |outs| && outs[k].Ok? ==> ErrCount(outs[..k]) == 0
    decreases |trace|
  {
    if trace != [] {
      var p, ev := trace[..|trace| - 1], trace[|trace| - 1];
      OkCombinesBothSides(p, f);
      FirstErrorWins(p, f);
      var before := Run(Initial(), p, f);
      var after := Step(before.0, ev, f);
      var outs := Run(Initial(), trace, f).1;
      assert outs == before.1 + Emitted(after.1);
      forall k | 0 <= k < |outs| && outs[k].Ok?
        ensures exists i, j :: 0 <= i < |trace| && 0 <= j < |trace| &&
                  exists a, b :: FillsRa(trace[i], a) && FillsRb(trace[j], b) && outs[k].value == f(a, b)
        ensures ErrCount(outs[..k]) == 0
      {
        if k < |before.1| {
          assert outs[k] == before.1[k];
          assert outs[..k] == before.1[..k];
          var i, j, a, b :| 0 <= i < |p| && 0 <= j < |p| &&
                           FillsRa(p[i], a) && FillsRb(p[j], b) && before.1[k].value == f(a, b);
          assert trace[i] == p[i] && trace[j] == p[j];
        } else {
          assert outs[..k] == before.1;
          var s := after.0;
          assert after.1 == Done(s, f);
          SlotsComeFromTheirSide(trace, f);
          var i :| 0 <= i < |trace| && FillsRa(trace[i], s.ra.value);
          var j :| 0 <= j < |trace| && FillsRb(trace[j], s.rb.value);
        }
      }
    }
  }

  /** The outcome when each side completes exactly once, t1's completion `r1`
      observed before t2's completion `r2`. */
  function Outcome<E, A, B, R>(r1: Result<E, A>, r2: Result<E, B>, f: (A, B) -> R): Result<E, R>
  {
    if r1.Err? then Err(r1.err)
    else if r2.Err? then Err(r2.err)
    else Ok(f(r1.value, r2.value))
  }

  /** Each side completing exactly once, in either order, makes exactly one
      callback invocation: the error observed first if there is one, otherwise
      `Ok(f(a, b))`. */
  lemma ExactlyOneDelivery<E, A, B, R>(r1: Result<E, A>, r2: Result<E, B>, f: (A, B) -> R)
    ensures Run(Initial(), [FromT1(r1), FromT2(r2)], f).1 == [Outcome(r1, r2, f)]
    ensures Run(Initial(), [FromT2(r2), FromT1(r1)], f).1 ==
              [if r2.Err? then Err(r2.err) else Outcome(r1, r2, f)]
  {
    RunPair(Initial(), FromT1(r1), FromT2(r2), f);
    RunPair(Initial(), FromT2(r2), FromT1(r1), f);
  }

  /** The same with an infallible t2: one invocation, `Err` only from t1. */
  lemma ExactlyOneDeliveryInfallibleT2<E, A, B, R>(r1: Result<E, A>, b: B, f: (A, B) -> R)
    ensures Run(Initial(), [FromT1(r1), FromT2Value(b)], f).1 == [Outcome(r1, Ok(b), f)]
    ensures Run(Initial(), [FromT2Value(b), FromT1(r1)], f).1 == [Outcome(r1, Ok(b), f)]
  {
    RunPair(Initial(), FromT1(r1), FromT2Value(b), f);
    RunPair(Initial(), FromT2Value(b), FromT1(r1), f);
  }

  /** The join's state and the history of its final callback, for TParallel. */
  class Parallel<E, A, B, R> {
    const f: (A, B) -> R
    /** `this.t2 instanceof TaskWithError`: which callback t2 was given. */
    const t2Fallible: bool
    var ra: Maybe<A>
    var rb: Maybe<B>
    var error: Maybe<E>
    /** Completions observed so far, and the final callback's invocations. */
    ghost var trace: seq<Event<E, A, B>>
    ghost var delivered: seq<Result<E, R>>

    function State(): Slots<E, A, B>
      reads this
    {
      Slots(ra, rb, error)
    }

    ghost predicate Valid()
      reads this
    {
      Run(Initial(), trace, f) == (State(), delivered)
    }

    /** The start of `execute`: all three slots empty, nothing observed yet. */
    constructor (f: (A, B) -> R, t2Fallible: bool)
      ensures Valid() && this.f == f && this.t2Fallible == t2Fallible
      ensures ra == Nothing && rb == Nothing && error == Nothing
      ensures trace == [] && delivered == []
    {
      this.f := f;
      this.t2Fallible := t2Fallible;
      ra, rb, error := Nothing, Nothing, Nothing;
      trace, delivered := [], [];
    }

    /** `done()`: the invocation it makes on the current slots. */
    method CheckDone() returns (out: Maybe<Result<E, R>>)
      ensures out.Just? <==> error.Nothing? && ra.Just? && rb.Just?
      ensures out.Just? ==> out.value == Ok(f(ra.value, rb.value))
      ensures out == Done(State(), f)
    {
      if error.Just? || ra.Nothing? || rb.Nothing? {
        out := Nothing;
      } else {
        out := Just(Ok(f(ra.value, rb.value)));
      }
    }

    /** t1's callback. */
    method OnT1(r: Result<E, A>) returns (out: Maybe<Result<E, R>>)
      requires Valid()
      modifies this
      ensures Valid()
      ensures (State(), out) == Step(old(State()), FromT1(r), f)
      ensures trace == old(trace) + [FromT1(r)] && delivered == old(delivered) + Emitted(out)
      ensures old(error).Just? ==> out == Nothing && State() == old(State())
      ensures old(error).Nothing? && r.Err? ==> out == Just(Err(r.err)) && error == Just(r.err)
      ensures error == FirstErr(trace) && ErrCount(delivered) <= 1
    {
      ghost var s0 := State();
      if error.Nothing? {
        match r
        case Err(e) =>
          out := Just(Err(e));
          error := Just(e);
        case Ok(a) =>
          ra := Just(a);
          out := CheckDone();
      } else {
        out := Nothing;
      }
      assert (State(), out) == Step(s0, FromT1(r), f);
      RunSnoc(Initial(), trace, FromT1(r), f);
      trace := trace + [FromT1(r)];
      delivered := delivered + Emitted(out);
      FirstErrorWins(trace, f);
    }

    /** t2's callback when t2 is a `TaskWithError`. */
    method OnT2(r: Result<E, B>) returns (out: Maybe<Result<E, R>>)
      requires Valid() && t2Fallible
      modifies this
      ensures Valid()
      ensures (State(), out) == Step(old(State()), FromT2(r), f)
      ensures trace == old(trace) + [FromT2(r)] && delivered == old(delivered) + Emitted(out)
      ensures old(error).Just? ==> out == Nothing && State() == old(State())
      ensures old(error).Nothing? && r.Err? ==> out == Just(Err(r.err)) && error == Just(r.err)
      ensures error == FirstErr(trace) && ErrCount(delivered) <= 1
    {
      ghost var s0 := State();
      if error.Nothing? {
        match r
        case Err(e) =>
          out := Just(Err(e));
          error := Just(e);
        case Ok(b) =>
          rb := Just(b);
          out := CheckDone();
      } else {
        out := Nothing;
      }
      assert (State(), out) == Step(s0, FromT2(r), f);
      RunSnoc(Initial(), trace, FromT2(r), f);
      trace := trace + [FromT2(r)];
      delivered := delivered + Emitted(out);
      FirstErrorWins(trace, f);
    }

    /** t2's callback when t2 is a `TaskWithoutError`: it always fills `rb`
        and can never deliver an `Err`. */
    method OnT2Value(b: B) returns (out: Maybe<Result<E, R>>)
      requires Valid() && !t2Fallible
      modifies this
      ensures Valid()
      ensures (State(), out) == Step(old(State()), FromT2Value(b), f)
      ensures trace == old(trace) + [FromT2Value(b)] && delivered == old(delivered) + Emitted(out)
      ensures rb == Just(b) && ra == old(ra) && error == old(error)
      ensures out.Just? ==> out.value.Ok? && error.Nothing?
      ensures error == FirstErr(trace) && ErrCount(delivered) <= 1
    {
      rb := Just(b);
      out := CheckDone();
      RunSnoc(Initial(), trace, FromT2Value(b), f);
      trace := trace + [FromT2Value(b)];
      delivered := delivered + Emitted(out);
      FirstErrorWins(trace, f);
    }
  }

  // ---------------------------------------------------------------------
  // TParallelWithoutError: two infallible tasks
  // ---------------------------------------------------------------------

  /** The two local slots of `TParallelWithoutError.execute`. */
  datatype Pair<A, B> = Pair(ra: Maybe<A>, rb: Maybe<B>)

  /** A completion of t1 or of t2. */
  datatype Completion<A, B> = Left(a: A) | Right(b: B)

  /** One completion: fill the side's slot, then `done()`. */
  function PairStep<A, B, R>(s: Pair<A, B>, c: Completion<A, B>, f: (A, B) -> R): (r: (Pair<A, B>, Maybe<R>))
    ensures c.Left? ==> r.0 == s.(ra := Just(c.a))
    ensures c.Right? ==> r.0 == s.(rb := Just(c.b))
    ensures r.1.Just? <==> r.0.ra.Just? && r.0.rb.Just?
    ensures r.1.Just? ==> r.1.value == f(r.0.ra.value, r.0.rb.value)
  {
    var s' := match c
              case Left(a) => s.(ra := Just(a))
              case Right(b) => s.(rb := Just(b));
    (s', if s'.ra.Nothing? || s'.rb.Nothing? then Nothing else Just(f(s'.ra.value, s'.rb.value)))
  }

  function PairRun<A, B, R>(s: Pair<A, B>, trace: seq<Completion<A, B>>, f: (A, B) -> R)
    : (r: (Pair<A, B>, seq<R>))
    ensures |r.1| <= |trace|
    decreases |trace|
  {
    if trace == [] then (s, [])
    else
      var before := PairRun(s, trace[..|trace| - 1], f);
      var after := PairStep(before.0, trace[|trace| - 1], f);
      (after.0, before.1 + Emitted(after.1))
  }

  /** Number of completions of t1 and of t2 in a trace. */
  function LeftCount<A, B>(trace: seq<Completion<A, B>>): nat
  {
    if trace == [] then 0 else (if trace[0].Left? then 1 else 0) + LeftCount(trace[1..])
  }

  function RightCount<A, B>(trace: seq<Completion<A, B>>): nat
  {
    if trace == [] then 0 else (if trace[0].Right? then 1 else 0) + RightCount(trace[1..])
  }

  /** Every completion is of one side or the other. */
  lemma {:induction false} CountsCoverTrace<A, B>(trace: seq<Completion<A, B>>)
    ensures LeftCount(trace) + RightCount(trace) == |trace|
  {
    if trace != [] {
      CountsCoverTrace(trace[1..]);
    }
  }

  /** A run of the infallible join extended by one completion. */
  lemma PairRunSnoc<A, B, R>(s: Pair<A, B>, trace: seq<Completion<A, B>>, c: Completion<A, B>, f: (A, B) -> R)
    ensures var before := PairRun(s, trace, f);
            var after := PairStep(before.0, c, f);
            PairRun(s, trace + [c], f) == (after.0, before.1 + Emitted(after.1))
  {
    assert (trace + [c])[..|trace|] == trace;
  }

  /** Completion counts of a longer trace. */
  lemma {:induction false} CountSnoc<A, B>(trace: seq<Completion<A, B>>, c: Completion<A, B>)
    ensures LeftCount(trace + [c]) == LeftCount(trace) + (if c.Left? then 1 else 0)
    ensures RightCount(trace + [c]) == RightCount(trace) + (if c.Right? then 1 else 0)
  {
    if trace == [] {
      assert [c][1..] == [];
    } else {
      assert (trace + [c])[1..] == trace[1..] + [c];
      CountSnoc(trace[1..], c);
    }
  }

  /** `ra` holds a value t1 completed with and `rb` one t2 completed with; a
      slot stays empty until its side has completed. */
  lemma {:induction false} PairSlotsComeFromTheirSide<A, B, R>(trace: seq<Completion<A, B>>, f: (A, B) -> R)
    ensures var s := PairRun(Pair(Nothing, Nothing), trace, f).0;
            && (s.ra.Just? ==> Left(s.ra.value) in trace)
            && (s.rb.Just? ==> Right(s.rb.value) in trace)
            && (LeftCount(trace) == 0 ==> s.ra.Nothing?)
            && (RightCount(trace) == 0 ==> s.rb.Nothing?)
    decreases |trace|
  {
    if trace != [] {
      var p, c := trace[..|trace| - 1], trace[|trace| - 1];
      assert trace == p + [c];
      PairSlotsComeFromTheirSide(p, f);
      PairRunSnoc(Pair(Nothing, Nothing), p, c, f);
      CountSnoc(p, c);
    }
  }

  /** Every value the callback receives is `f(a, b)` with `a` from t1 and `b`
      from t2; without a completion of either side it never fires. */
  lemma {:induction false} PairRunNeedsBoth<A, B, R>(trace: seq<Completion<A, B>>, f: (A, B) -> R)
    ensures var outs := PairRun(Pair(Nothing, Nothing), trace, f).1;
            forall k :: 0 <= k < |outs| ==>
              exists a, b :: Left(a) in trace && Right(b) in trace && outs[k] == f(a, b)
    ensures LeftCount(trace) == 0 || RightCount(trace) == 0 ==>
              PairRun(Pair(Nothing, Nothing), trace, f).1 == []
    decreases |trace|
  {
    if trace != [] {
      var p, c := trace[..|trace| - 1], trace[|trace| - 1];
      assert trace == p + [c];
      PairRunNeedsBoth(p, f);
      CountSnoc(p, c);
      PairRunSnoc(Pair(Nothing, Nothing), p, c, f);
      PairSlotsComeFromTheirSide(trace, f);
      var before := PairRun(Pair(Nothing, Nothing), p, f);
      var after := PairStep(before.0, c, f);
      var outs := PairRun(Pair(Nothing, Nothing), trace, f).1;
      assert outs == before.1 + Emitted(after.1);
      forall k | 0 <= k < |outs|
        ensures exists a, b :: Left(a) in trace && Right(b) in trace && outs[k] == f(a, b)
      {
        if k < |before.1| {
          var a, b :| Left(a) in p && Right(b) in p && before.1[k] == f(a, b);
          assert Left(a) in trace && Right(b) in trace;
          assert outs[k] == before.1[k];
        } else {
          var s := after.0;
          assert outs[k] == f(s.ra.value, s.rb.value);
        }
      }
    }
  }

  /** If t1 and t2 each complete exactly once, in whichever order, the callback
      fires exactly once, with `f(a, b)`. */
  lemma {:induction false} PairExactlyOnce<A, B, R>(trace: seq<Completion<A, B>>, f: (A, B) -> R)
    requires LeftCount(trace) == 1 && RightCount(trace) == 1
    ensures exists a, b :: Left(a) in trace && Right(b) in trace &&
                           PairRun(Pair(Nothing, Nothing), trace, f).1 == [f(a, b)]
  {
    CountsCoverTrace(trace);
    var c0, c1 := trace[0], trace[1];
    assert trace == [c0, c1];
    var s0: Pair<A, B> := Pair(Nothing, Nothing);
    PairRunSnoc(s0, [], c0, f);
    assert [] + [c0] == [c0];
    PairRunSnoc(s0, [c0], c1, f);
    assert [c0] + [c1] == trace;
    assert LeftCount(trace) == (if c0.Left? then 1 else 0) + LeftCount([c1]) by {
      assert trace[1..] == [c1];
    }
    if c0.Left? {
      assert c1.Right?;
      assert PairRun(s0, trace, f).1 == [f(c0.a, c1.b)];
    } else {
      assert c1.Left?;
      assert PairRun(s0, trace, f).1 == [f(c1.a, c0.b)];
    }
  }

  /** The join's state and the history of its final callback, for
      TParallelWithoutError. */
  class ParallelWithoutError<A, B, R> {
    const f: (A, B) -> R
    var ra: Maybe<A>
    var rb: Maybe<B>
    ghost var trace: seq<Completion<A, B>>
    ghost var delivered: seq<R>

    ghost predicate Valid()
      reads this
    {
      PairRun(Pair(Nothing, Nothing), trace, f) == (Pair(ra, rb), delivered)
    }

    constructor (f: (A, B) -> R)
      ensures Valid() && this.f == f && ra == Nothing && rb == Nothing
      ensures trace == [] && delivered == []
    {
      this.f := f;
      ra, rb := Nothing, Nothing;
      trace, delivered := [], [];
    }

    /** `done()` on the current slots. */
    method CheckDone() returns (out: Maybe<R>)
      ensures out.Just? <==> ra.Just? && rb.Just?
      ensures out.Just? ==> out.value == f(ra.value, rb.value)
    {
      if ra.Nothing? || rb.Nothing? {
        out := Nothing;
      } else {
        out := Just(f(ra.value, rb.value));
      }
    }

    /** t1's callback. */
    method OnT1(a: A) returns (out: Maybe<R>)
      requires Valid()
      modifies this
      ensures Valid()
      ensures ra == Just(a) && rb == old(rb)
      ensures (Pair(ra, rb), out) == PairStep(old(Pair(ra, rb)), Left(a), f)
      ensures trace == old(trace) + [Left(a)] && delivered == old(delivered) + Emitted(out)
    {
      ra := Just(a);
      out := CheckDone();
      trace := trace + [Left(a)];
      delivered := delivered + Emitted(out);
    }

    /** t2's callback. */
    method OnT2(b: B) returns (out: Maybe<R>)
      requires Valid()
      modifies this
      ensures Valid()
      ensures rb == Just(b) && ra == old(ra)
      ensures (Pair(ra, rb), out) == PairStep(old(Pair(ra, rb)), Right(b), f)
      ensures trace == old(trace) + [Right(b)] && delivered == old(delivered) + Emitted(out)
    {
      rb := Just(b);
      out := CheckDone();
      trace := trace + [Right(b)];
      delivered := delivered + Emitted(out);
    }
  }
}
