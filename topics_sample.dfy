/** samples/src/Samples/Topics.tsx: a counter incremented through a topic
    that the program both sends on and listens to. */
module TopicsSample {
  import opened TeaCup

  type Model = int

  datatype Msg = Send | Sent | Received(t: int)

  function Init(): (r: (Model, Cmd<Msg>))
    ensures r.0 == 0 && r.1.NoCmd?
  {
    (0, NoCmd)
  }

  function Update(msg: Msg, model: Model): (r: (Model, Cmd<Msg>))
    ensures msg.Send? ==>
              && r.0 == model
              && r.1.PerformSend? && r.1.value == 3
              && forall x :: r.1.toMsg(x) == Sent
    ensures msg.Sent? ==> r.0 == model && r.1.NoCmd?
    ensures msg.Received? ==> r.0 == model + msg.t && r.1.NoCmd?
  {
    match msg
    case Send => (model, PerformSend(3, _ => Sent))
    case Sent => (model, NoCmd)
    case Received(t) => (model + t, NoCmd)
  }

  /** Always listening on the module's topic, each value `t` becoming
      `received t`. */
  function Subscriptions(model: Model): (s: Sub<Msg>)
    ensures s.Listen? && forall t :: s.toMsg(t) == Received(t)
  {
    Listen(t => Received(t))
  }

  /** A click's round trip: `send` broadcasts 3, the subscription turns it
      into `received 3`, then the task's completion becomes `sent`; the
      counter ends 3 higher.  The messages are applied in the order that
      `PubSub.SendTask.Execute` proves: every observer is called before the
      completion. */
  lemma SendRoundTrip(model: Model)
    ensures var (m1, cmd) := Update(Send, model);
            var received := Subscriptions(m1).toMsg(cmd.value);
            var m2 := Update(received, m1).0;
            Update(cmd.toMsg(cmd.value), m2).0 == model + 3
  {
  }
}
