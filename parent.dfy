/** samples/src/Samples/ContextDispatch/Parent.tsx: a string that grows on
    click, next to an embedded `Child` counter. */
module Parent {
  import opened TeaCup
  import Child

  datatype Model = Model(childModel: Child.Model, value: string)

  datatype Msg = ChildMsg(msg: Child.Msg) | ParentClicked

  /** `liftChildMsg`: wraps a child message. */
  function LiftChildMsg(msg: Child.Msg): (r: Msg)
    ensures r.ChildMsg? && r.msg == msg
  {
    ChildMsg(msg)
  }

  /** `init`: the child's initial model with `value = "foo"`, the child's
      command lifted. */
  function Init(): (r: (Model, Cmd<Msg>))
    ensures r.0.value == "foo" && r.0.childModel == Child.Init().0
    ensures r.1.NoCmd?
  {
    var (childModel, childCmd) := Child.Init();
    (Model(childModel, "foo"), MapCmd(childCmd, LiftChildMsg))
  }

  function Update(msg: Msg, model: Model): (r: (Model, Cmd<Msg>))
    ensures r.1.NoCmd?
    ensures msg.ChildMsg? ==>
              r.0.childModel == Child.Update(msg.msg, model.childModel).0 && r.0.value == model.value
    ensures msg.ParentClicked? ==>
              r.0.value == model.value + "X" && r.0.childModel == model.childModel
  {
    match msg
    case ChildMsg(m) =>
      var (childModel, childCmd) := Child.Update(m, model.childModel);
      (model.(childModel := childModel), MapCmd(childCmd, LiftChildMsg))
    case ParentClicked =>
      (model.(value := model.value + "X"), NoCmd)
  }

  /** Clicking `n` times appends `n` copies of "X" and leaves the child alone. */
  function Clicks(model: Model, n: nat): Model
  {
    if n == 0 then model else Update(ParentClicked, Clicks(model, n - 1)).0
  }

  lemma {:induction false} ClicksAppend(model: Model, n: nat)
    ensures Clicks(model, n).value == model.value + seq(n, _ => 'X')
    ensures Clicks(model, n).childModel == model.childModel
  {
    if n > 0 {
      ClicksAppend(model, n - 1);
      assert seq(n, _ => 'X') == seq(n - 1, _ => 'X') + ['X'];
    }
  }
}
