/** The two small value types the task combinators are written over: a
    success/failure container and a presence/absence container. */
module Results {

  /** `Result<E, R>`: exactly one of `Ok(value)` and `Err(err)`. */
  datatype Result<E, R> = Ok(value: R) | Err(err: E) {

    /** `r.map(f)`: transforms the `Ok` payload, passes an `Err` through. */
    function Map(f: R -> R): (r: Result<E, R>)
      ensures r.Ok? <==> this.Ok?
      ensures r.Ok? ==> r.value == f(this.value)
      ensures r.Err? ==> r == this
    {
      match this
      case Ok(v) => Ok(f(v))
      case Err(e) => Err(e)
    }

    /** `r.mapError(g)`: transforms the `Err` payload, passes an `Ok` through. */
    function MapError(g: E -> E): (r: Result<E, R>)
      ensures r.Err? <==> this.Err?
      ensures r.Err? ==> r.err == g(this.err)
      ensures r.Ok? ==> r == this
    {
      match this
      case Ok(v) => Ok(v)
      case Err(e) => Err(g(e))
    }
  }

  /** `Maybe<T>`: the accumulator slots of the parallel join. */
  datatype Maybe<T> = Nothing | Just(value: T)

  /** Number of `Err` values in a sequence of results. */
  function ErrCount<E, R>(rs: seq<Result<E, R>>): nat
  {
    if rs == [] then 0 else (if rs[0].Err? then 1 else 0) + ErrCount(rs[1..])
  }

  /** `ErrCount` adds up over concatenation. */
  lemma {:induction false} ErrCountAppend<E, R>(a: seq<Result<E, R>>, b: seq<Result<E, R>>)
    ensures ErrCount(a + b) == ErrCount(a) + ErrCount(b)
  {
    if a == [] {
      assert a + b == b;
    } else {
      assert (a + b)[1..] == a[1..] + b;
      ErrCountAppend(a[1..], b);
    }
  }
}
