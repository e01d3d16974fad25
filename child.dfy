/** samples/src/Samples/ContextDispatch/Child.tsx: a counter. */
module Child {
  import opened TeaCup

  datatype Model = Model(value: int)

  datatype Msg = Inc | Dec | Reset

  function Init(): (r: (Model, Cmd<Msg>))
    ensures r.0.value == 0 && r.1.NoCmd?
  {
    (Model(0), NoCmd)
  }

  function Update(msg: Msg, model: Model): (r: (Model, Cmd<Msg>))
    ensures r.1.NoCmd?
    ensures msg.Inc? ==> r.0.value == model.value + 1
    ensures msg.Dec? ==> r.0.value == model.value - 1
    ensures msg.Reset? ==> r.0.value == 0
  {
    match msg
    case Dec => (model.(value := model.value - 1), NoCmd)
    case Inc => (model.(value := model.value + 1), NoCmd)
    case Reset => (model.(value := 0), NoCmd)
  }

  /** `dec` undoes `inc`, and `inc` undoes `dec`. */
  lemma IncDecInverse(model: Model)
    ensures Update(Dec, Update(Inc, model).0).0 == model
    ensures Update(Inc, Update(Dec, model).0).0 == model
  {
  }

  /** `reset` brings any model back to the initial one, so resetting twice is
      resetting once. */
  lemma ResetIdempotent(model: Model)
    ensures Update(Reset, model).0 == Init().0
    ensures Update(Reset, Update(Reset, model).0).0 == Update(Reset, model).0
  {
  }
}
