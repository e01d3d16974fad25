/** samples/src/Samples/ContextDispatch.tsx: a list of counters that can be
    added, deleted, incremented and decremented by index. */
module ContextDispatch {
  import opened TeaCup

  datatype Item = Item(value: int, clickCount: int)

  datatype Model = Model(items: seq<Item>)

  datatype Msg = Inc(index: int) | Dec(index: int) | Add | Delete(index: int)

  function Init(): (r: (Model, Cmd<Msg>))
    ensures r.0.items == [] && r.1.NoCmd?
  {
    (Model([]), NoCmd)
  }

  /** `items.filter((x, i) => i !== index)`: drops the item at `index`, if
      there is one. */
  function Drop(items: seq<Item>, index: int): (r: seq<Item>)
    ensures 0 <= index < |items| ==> r == items[..index] + items[index + 1..]
    ensures !(0 <= index < |items|) ==> r == items
  {
    if items == [] then []
    else
      var last := |items| - 1;
      Drop(items[..last], index) + (if last == index then [] else [items[last]])
  }

  /** `items.map((x, i) => i === index ? g(x) : x)`. */
  function MapAt(items: seq<Item>, index: int, g: Item -> Item): (r: seq<Item>)
    ensures |r| == |items|
    ensures forall i :: 0 <= i < |items| ==> r[i] == if i == index then g(items[i]) else items[i]
  {
    if items == [] then []
    else
      var last := |items| - 1;
      MapAt(items[..last], index, g) + [if last == index then g(items[last]) else items[last]]
  }

  function Update(msg: Msg, model: Model): (r: (Model, Cmd<Msg>))
    ensures r.1.NoCmd?
    ensures msg.Add? ==> r.0.items == model.items + [Item(0, 0)]
    ensures msg.Delete? ==>
              if 0 <= msg.index < |model.items|
              then r.0.items == model.items[..msg.index] + model.items[msg.index + 1..]
              else r.0.items == model.items
    ensures (msg.Inc? || msg.Dec?) ==>
              && |r.0.items| == |model.items|
              && forall i :: 0 <= i < |model.items| && i != msg.index ==> r.0.items[i] == model.items[i]
    ensures msg.Inc? && 0 <= msg.index < |model.items| ==>
              var x := model.items[msg.index];
              r.0.items[msg.index] == Item(x.value + 1, x.clickCount + 1)
    ensures msg.Dec? && 0 <= msg.index < |model.items| ==>
              var x := model.items[msg.index];
              r.0.items[msg.index] == Item(x.value - 1, x.clickCount + 1)
  {
    match msg
    case Delete(index) =>
      (model.(items := Drop(model.items, index)), NoCmd)
    case Add =>
      (model.(items := model.items + [Item(0, 0)]), NoCmd)
    case Dec(index) =>
      (model.(items := MapAt(model.items, index, (x: Item) => x.(value := x.value - 1, clickCount := x.clickCount + 1))), NoCmd)
    case Inc(index) =>
      (model.(items := MapAt(model.items, index, (x: Item) => x.(value := x.value + 1, clickCount := x.clickCount + 1))), NoCmd)
  }

  /** Deleting the item just added gives back the model. */
  lemma AddThenDeleteLast(model: Model)
    ensures Update(Delete(|model.items|), Update(Add, model).0).0 == model
  {
    assert (model.items + [Item(0, 0)])[..|model.items|] == model.items;
  }

  /** `dec i` after `inc i` restores the item's value and counts two clicks. */
  lemma IncThenDec(model: Model, i: int)
    requires 0 <= i < |model.items|
    ensures var items := Update(Dec(i), Update(Inc(i), model).0).0.items;
            && |items| == |model.items|
            && items[i] == model.items[i].(clickCount := model.items[i].clickCount + 2)
  {
  }

  function Subscriptions(model: Model): (s: Sub<Msg>)
    ensures s.NoSub?
  {
    NoSub
  }
}
