/** The publish/subscribe topic of src/TeaCup/Topic.ts.

    A topic owns a mutable list of observers.  Observers are compared by
    reference, as the source's closures are, so they are objects here; what
    calling an observer does is recorded as a `Delivery` of the value to it. */
module PubSub {
  import opened Results

  /** A function registered on a topic. */
  class Observer {
  }

  /** One call `o(t)` made by `send`. */
  datatype Delivery<T> = Delivery(observer: Observer, value: T)

  /** What `send(t)` does: one call per registered observer, in list order. */
  function Broadcast<T>(observers: seq<Observer>, t: T): (ds: seq<Delivery<T>>)
    ensures |ds| == |observers|
    ensures forall i :: 0 <= i < |observers| ==> ds[i] == Delivery(observers[i], t)
  {
    if observers == [] then [] else [Delivery(observers[0], t)] + Broadcast(observers[1..], t)
  }

  /** The values a sequence of calls hands to `o`, in order. */
  function ValuesFor<T>(ds: seq<Delivery<T>>, o: Observer): seq<T>
  {
    if ds == [] then []
    else (if ds[0].observer == o then [ds[0].value] else []) + ValuesFor(ds[1..], o)
  }

  /** `n` copies of `t`. */
  function Copies<T>(t: T, n: nat): seq<T>
  {
    if n == 0 then [] else [t] + Copies(t, n - 1)
  }

  /** The values handed to `o` by a sequence of calls split at its head. */
  lemma ValuesForCons<T>(d: Delivery<T>, ds: seq<Delivery<T>>, o: Observer)
    ensures ValuesFor([d] + ds, o) == (if d.observer == o then [d.value] else []) + ValuesFor(ds, o)
  {
    assert ([d] + ds)[1..] == ds;
  }

  /** The registrations of `o` in a list split at its head. */
  lemma CountCons(observers: seq<Observer>, o: Observer)
    requires observers != []
    ensures multiset(observers)[o] == (if observers[0] == o then 1 else 0) + multiset(observers[1..])[o]
  {
    assert observers == [observers[0]] + observers[1..];
  }

  /** A send reaches each observer as often as it is registered, with the value
      sent; an observer that is not registered receives nothing. */
  lemma {:induction false} SendReachesEachRegistration<T>(observers: seq<Observer>, t: T, o: Observer)
    ensures ValuesFor(Broadcast(observers, t), o) == Copies(t, multiset(observers)[o])
  {
    if observers != [] {
      var rest := observers[1..];
      SendReachesEachRegistration(rest, t, o);
      assert Broadcast(observers, t) == [Delivery(observers[0], t)] + Broadcast(rest, t);
      ValuesForCons(Delivery(observers[0], t), Broadcast(rest, t), o);
      CountCons(observers, o);
    }
  }

  /** `observers.filter(o2 => o !== o2)`. */
  function Without(observers: seq<Observer>, o: Observer): (r: seq<Observer>)
    ensures multiset(r) == multiset(observers)[o := 0]
    ensures o !in r
  {
    if observers == [] then []
    else
      var rest := Without(observers[1..], o);
      assert observers == [observers[0]] + observers[1..];
      (if observers[0] == o then [] else [observers[0]]) + rest
  }

  /** Filtering keeps the other observers in their relative order: it works
      piecewise on a split list, and leaves a list without `o` unchanged. */
  lemma {:induction false} WithoutAppend(a: seq<Observer>, b: seq<Observer>, o: Observer)
    ensures Without(a + b, o) == Without(a, o) + Without(b, o)
  {
    if a == [] {
      assert a + b == b;
    } else {
      assert (a + b)[0] == a[0];
      assert (a + b)[1..] == a[1..] + b;
      WithoutAppend(a[1..], b, o);
    }
  }

  lemma {:induction false} WithoutAbsent(observers: seq<Observer>, o: Observer)
    requires o !in observers
    ensures Without(observers, o) == observers
  {
    if observers != [] {
      var rest := observers[1..];
      WithoutAbsent(rest, o);
      assert observers[0] != o;
      assert Without(observers, o) == [observers[0]] + Without(rest, o);
      assert observers == [observers[0]] + rest;
    }
  }

  class Topic<T> {
    var observers: seq<Observer>

    constructor ()
      ensures observers == []
    {
      observers := [];
    }

    /** `send(t)`: calls every observer with `t`, in registration order; with
        no observers it does nothing. */
    method Send(t: T) returns (deliveries: seq<Delivery<T>>)
      ensures deliveries == Broadcast(observers, t)
    {
      deliveries := [];
      for i := 0 to |observers|
        invariant |deliveries| == i
        invariant forall j :: 0 <= j < i ==> deliveries[j] == Delivery(observers[j], t)
      {
        deliveries := deliveries + [Delivery(observers[i], t)];
      }
    }

    /** `addObserver(o)`: appended after the observers already there. */
    method AddObserver(o: Observer)
      modifies this
      ensures observers == old(observers) + [o]
    {
      observers := observers + [o];
    }

    /** `removeObserver(o)`: every registration of `o` goes, the rest stay in order. */
    method RemoveObserver(o: Observer)
      modifies this
      ensures observers == Without(old(observers), o)
    {
      observers := Without(observers, o);
    }

    /** `sendTask(t)`. */
    method SendTaskOf(t: T) returns (task: SendTask<T>)
      ensures fresh(task) && task.topic == this && task.obj == t
    {
      task := new SendTask(this, t);
    }

    /** `listen(toMsg)`: a subscription not yet registered. */
    method Listen<M>(toMsg: T -> M) returns (sub: ListenSub<T, M>)
      ensures fresh(sub) && sub.topic == this && sub.toMsg == toMsg && sub.observer == Nothing
    {
      sub := new ListenSub(this, toMsg);
    }
  }

  /** What executing a `SendTask` does, in order. */
  datatype SendEffect<E, T> = Notified(delivery: Delivery<T>) | Completed(result: Result<E, T>)

  /** A task that, when executed, broadcasts `obj` and then completes with it. */
  class SendTask<T> {
    const topic: Topic<T>
    const obj: T

    constructor (topic: Topic<T>, obj: T)
      ensures this.topic == topic && this.obj == obj
    {
      this.topic := topic;
      this.obj := obj;
    }

    /** `execute(callback)`: first one call per observer with `obj`, then one
        call of the callback with `Ok(obj)`; it never fails. */
    method Execute<E>() returns (effects: seq<SendEffect<E, T>>)
      ensures |effects| == |topic.observers| + 1
      ensures forall i :: 0 <= i < |topic.observers| ==>
                effects[i] == Notified(Delivery(topic.observers[i], obj))
      ensures effects[|topic.observers|] == Completed(Ok(obj))
    {
      var ds := topic.Send(obj);
      effects := seq(|ds|, i requires 0 <= i < |ds| => Notified(ds[i])) + [Completed(Ok(obj))];
    }
  }

  /** The subscription `listen(toMsg)` returns. */
  class ListenSub<T, M> {
    const topic: Topic<T>
    const toMsg: T -> M
    var observer: Maybe<Observer>

    constructor (topic: Topic<T>, toMsg: T -> M)
      ensures this.topic == topic && this.toMsg == toMsg && observer == Nothing
    {
      this.topic := topic;
      this.toMsg := toMsg;
      observer := Nothing;
    }

    /** The messages the closure `o` registered by this subscription
        dispatches for a sequence of calls made by `send`: `toMsg(t)` for each
        call addressed to it. */
    function DispatchedBy(o: Observer, deliveries: seq<Delivery<T>>): seq<M>
    {
      var vs := ValuesFor(deliveries, o);
      seq(|vs|, i requires 0 <= i < |vs| => toMsg(vs[i]))
    }

    /** The messages the currently recorded observer dispatches; nothing while
        none is recorded. */
    function Dispatched(deliveries: seq<Delivery<T>>): seq<M>
      reads this
    {
      if observer.Nothing? then [] else DispatchedBy(observer.value, deliveries)
    }

    /** `onInit()`: registers one new observer, at the end of the list, and
        records it. */
    method OnInit()
      modifies this, topic
      ensures observer.Just? && fresh(observer.value)
      ensures topic.observers == old(topic.observers) + [observer.value]
      ensures multiset(topic.observers)[observer.value] == 1
    {
      var o := new Observer;
      topic.AddObserver(o);
      observer := Just(o);
    }

    /** `onRelease()`: removes the recorded observer and forgets it; without a
        recorded observer it changes nothing, so a second release is a no-op. */
    method OnRelease()
      modifies this, topic
      ensures observer == Nothing
      ensures old(observer).Nothing? ==> topic.observers == old(topic.observers)
      ensures old(observer).Just? ==>
                topic.observers == Without(old(topic.observers), old(observer).value)
    {
      if observer.Just? {
        topic.RemoveObserver(observer.value);
        observer := Nothing;
      }
    }
  }

  /** Once registered, a subscription receives every later send exactly once. */
  method InitThenSend<T, M>(sub: ListenSub<T, M>, t: T) returns (deliveries: seq<Delivery<T>>)
    modifies sub, sub.topic
    ensures deliveries == Broadcast(sub.topic.observers, t)
    ensures sub.Dispatched(deliveries) == [sub.toMsg(t)]
  {
    sub.OnInit();
    deliveries := sub.topic.Send(t);
    SendReachesEachRegistration(sub.topic.observers, t, sub.observer.value);
  }

  /** After release, a send no longer reaches the observer the subscription
      had registered. */
  method ReleaseThenSend<T, M>(sub: ListenSub<T, M>, t: T) returns (deliveries: seq<Delivery<T>>)
    requires sub.observer.Just?
    modifies sub, sub.topic
    ensures deliveries == Broadcast(sub.topic.observers, t)
    ensures ValuesFor(deliveries, old(sub.observer).value) == []
    ensures sub.DispatchedBy(old(sub.observer).value, deliveries) == []
    ensures sub.Dispatched(deliveries) == []
  {
    ghost var o := sub.observer.value;
    sub.OnRelease();
    deliveries := sub.topic.Send(t);
    SendReachesEachRegistration(sub.topic.observers, t, o);
  }
}
