/** The two values the sample programs hand back to the program loop, kept
    opaque: an outbound command and a subscription. */
module TeaCup {

  /** `Cmd<M>`: either nothing to do, or the one kind of command the samples
      build, `Task.perform(topic.sendTask(value), toMsg)` on the module's
      topic, whose completion is turned into a message by `toMsg`. */
  datatype Cmd<M> = NoCmd | PerformSend(value: int, toMsg: int -> M)

  /** `cmd.map(f)`: the same command, its messages passed through `f`. */
  function MapCmd<M, N>(c: Cmd<M>, f: M -> N): (r: Cmd<N>)
    ensures r.NoCmd? <==> c.NoCmd?
    ensures r.PerformSend? ==> r.value == c.value && forall x :: r.toMsg(x) == f(c.toMsg(x))
  {
    match c
    case NoCmd => NoCmd
    case PerformSend(v, toMsg) => PerformSend(v, x => f(toMsg(x)))
  }

  /** `Sub<M>`: no subscription, or `topic.listen(toMsg)` on the module's topic. */
  datatype Sub<M> = NoSub | Listen(toMsg: int -> M)
}
