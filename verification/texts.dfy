/** `Text`: a read-only display refreshed by the inputs it is registered
    with.  Its update callback, when present, reads the values of the inputs
    named "bill", "people", "customTip" and "radioTip" from its own input
    registry. */
module Texts {
  import opened Wrappers
  import opened Registries
  import Tip

  /** The two callbacks the widget installs. */
  datatype Callback = TipAmountCallback | TotalCallback

  datatype Text<I> = Text(callback: Option<Callback>, inputs: Registry<I>)

  /** A callback asked for an input that is not registered (a `TypeError`
      in the source, from reading `.value` of `undefined`). */
  datatype UpdateError = UnboundInput(name: string)

  function AddInput<I>(t: Text<I>, name: string, input: I): (res: Result<Text<I>, Error>)
    ensures res.Failure? <==> Has(t.inputs, name)
    ensures res.Failure? ==> res.error == AlreadyDefined(name)
    ensures res.Success? ==> res.value.callback == t.callback
    ensures res.Success? ==> Get(res.value.inputs, name) == Some(input)
    ensures res.Success? ==> forall m | m != name :: Get(res.value.inputs, m) == Get(t.inputs, m)
    ensures res.Success? ==> Items(res.value.inputs) == Items(t.inputs) + [input]
  {
    var inputs :- Add(t.inputs, name, input);
    Success(t.(inputs := inputs))
  }

  function RemoveInput<I>(t: Text<I>, name: string): (res: Result<Text<I>, Error>)
    ensures res.Failure? <==> !Has(t.inputs, name)
    ensures res.Failure? ==> res.error == DoesNotExist(name)
    ensures res.Success? ==> res.value.callback == t.callback
    ensures res.Success? ==> !Has(res.value.inputs, name)
    ensures res.Success? ==> forall m | m != name :: Get(res.value.inputs, m) == Get(t.inputs, m)
    ensures res.Success? && Distinct(t.inputs) ==> exists k | 0 <= k < |t.inputs| ::
      t.inputs[k].name == name && res.value.inputs == t.inputs[..k] + t.inputs[k + 1..]
  {
    var inputs :- Remove(t.inputs, name);
    Success(t.(inputs := inputs))
  }

  /** A text's inputs as start-up registers them: each callback name bound
      to its input. */
  predicate InputsWired<I(==)>(inputs: Registry<I>, bill: I, radioTip: I, people: I, customTip: I) {
    && Get(inputs, "bill") == Some(bill)
    && Get(inputs, "radioTip") == Some(radioTip)
    && Get(inputs, "people") == Some(people)
    && Get(inputs, "customTip") == Some(customTip)
  }

  /** Start-up's four `addInput` calls on a fresh text, in the source's
      order: none throws, and each callback name ends up bound. */
  function WireInputs<I(==)>(t: Text<I>, bill: I, radioTip: I, people: I, customTip: I): (r: Result<Text<I>, Error>)
    requires t.inputs == []
    ensures r.Success?
    ensures r.value.callback == t.callback
    ensures InputsWired(r.value.inputs, bill, radioTip, people, customTip)
  {
    var t1 := AddInput(t, "bill", bill);
    if t1.Failure? then t1 else
    var t2 := AddInput(t1.value, "radioTip", radioTip);
    if t2.Failure? then t2 else
    var t3 := AddInput(t2.value, "people", people);
    if t3.Failure? then t3 else
    AddInput(t3.value, "customTip", customTip)
  }

  /** The current value of the input registered under `name`. */
  function ValueOf<I>(inputs: Registry<I>, valueOf: I -> Option<real>, name: string): Result<Option<real>, UpdateError> {
    match Get(inputs, name)
    case None => Failure(UnboundInput(name))
    case Some(input) => Success(valueOf(input))
  }

  /** The four values a callback reads, in the order it reads them; the
      first unregistered name is the error. */
  function ReadFields<I>(inputs: Registry<I>, valueOf: I -> Option<real>): (r: Result<Tip.Fields, UpdateError>)
    ensures r.Success? <==> Has(inputs, "bill") && Has(inputs, "people") && Has(inputs, "customTip") && Has(inputs, "radioTip")
    ensures r.Success? ==>
      && r.value.bill == valueOf(Get(inputs, "bill").value)
      && r.value.people == valueOf(Get(inputs, "people").value)
      && r.value.customTip == valueOf(Get(inputs, "customTip").value)
      && r.value.radioTip == valueOf(Get(inputs, "radioTip").value)
    ensures !Has(inputs, "bill") ==> r == Failure(UnboundInput("bill"))
  {
    var bill :- ValueOf(inputs, valueOf, "bill");
    var people :- ValueOf(inputs, valueOf, "people");
    var customTip :- ValueOf(inputs, valueOf, "customTip");
    var radioTip :- ValueOf(inputs, valueOf, "radioTip");
    Success(Tip.Fields(bill, people, customTip, radioTip))
  }

  /** `update`: the value the text displays next.  Without a callback it
      shows the value it was sent; with one it shows the callback's result,
      where `previous` is the number `parseInt` re-reads from the display. */
  function Update<I>(t: Text<I>, valueOf: I -> Option<real>, newValue: real, previous: real): (r: Result<real, UpdateError>)
    ensures t.callback.None? ==> r == Success(newValue)
    ensures t.callback.Some? ==> (r.Success? <==> ReadFields(t.inputs, valueOf).Success?)
    ensures t.callback == Some(TipAmountCallback) && r.Success? ==>
      r.value == Tip.TipAmountPerPerson(ReadFields(t.inputs, valueOf).value, previous)
    ensures t.callback == Some(TotalCallback) && r.Success? ==>
      r.value == Tip.TotalPerPerson(ReadFields(t.inputs, valueOf).value, previous)
  {
    match t.callback
    case None => Success(newValue)
    case Some(callback) =>
      var fields :- ReadFields(t.inputs, valueOf);
      match callback
      case TipAmountCallback => Success(Tip.TipAmountPerPerson(fields, previous))
      case TotalCallback => Success(Tip.TotalPerPerson(fields, previous))
  }

  /** A text with a callback ignores the value it is sent: it recomputes
      from its registered inputs. */
  lemma CallbackIgnoresSentValue<I>(t: Text<I>, valueOf: I -> Option<real>, a: real, b: real, previous: real)
    requires t.callback.Some?
    ensures Update(t, valueOf, a, previous) == Update(t, valueOf, b, previous)
  {
  }
}
