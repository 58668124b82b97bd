/** `NumberInput`: a numeric field with bounds and a registry of the texts
    it refreshes.  The parse of the field's text (`parseInt` for
    `inputmode="numeric"`, `parseFloat` for `"decimal"`) happens before the
    model: an input event arrives already parsed. */
module NumberInputs {
  import opened Wrappers
  import opened Registries

  /** `Number.MAX_SAFE_INTEGER`, 2^53 - 1. */
  const MaxSafeInteger: int := 0x1F_FFFF_FFFF_FFFF

  datatype NumberInput<T> = NumberInput(value: Option<real>, min: int, max: int, texts: Registry<T>)

  /** What an `input` event carries once the field's text is parsed: the
      empty string, a number, or `NaN`. */
  datatype InputEvent = Cleared | Entered(number: real) | NotANumber

  /** The constructor: `minAttr`/`maxAttr` are the parsed `min`/`max`
      attributes, `None` when absent or empty. */
  function FromAttributes<T>(defaultValue: real, minAttr: Option<int>, maxAttr: Option<int>): (inp: NumberInput<T>)
    ensures inp.value == Some(defaultValue) && inp.texts == []
    ensures minAttr.None? ==> inp.min == 0
    ensures minAttr.Some? ==> inp.min == minAttr.value
    ensures maxAttr.None? ==> inp.max == MaxSafeInteger
    ensures maxAttr.Some? ==> inp.max == maxAttr.value
  {
    var min := if minAttr.Some? then minAttr.value else 0;
    var max := if maxAttr.Some? then maxAttr.value else MaxSafeInteger;
    NumberInput(Some(defaultValue), min, max, [])
  }

  predicate InRange<T>(inp: NumberInput<T>, x: real) {
    inp.min as real <= x <= inp.max as real
  }

  /** The stored value is undefined or lies within the bounds. */
  predicate ValueInRange<T>(inp: NumberInput<T>) {
    inp.value.None? || InRange(inp, inp.value.value)
  }

  /** Without `min` and `max` attributes a field accepts exactly the numbers
      from 0 to 2^53 - 1. */
  lemma DefaultBounds<T>(defaultValue: real, x: real)
    ensures InRange(FromAttributes<T>(defaultValue, None, None), x)
        <==> 0.0 <= x <= 9007199254740991.0
  {
  }

  /** `addText`, inherited from `Input`: only the registry changes. */
  function AddText<T>(inp: NumberInput<T>, name: string, text: T): (res: Result<NumberInput<T>, Error>)
    ensures res.Failure? <==> Has(inp.texts, name)
    ensures res.Failure? ==> res.error == AlreadyDefined(name)
    ensures res.Success? ==> res.value.value == inp.value && res.value.min == inp.min && res.value.max == inp.max
    ensures res.Success? ==> Get(res.value.texts, name) == Some(text)
    ensures res.Success? ==> forall m | m != name :: Get(res.value.texts, m) == Get(inp.texts, m)
    ensures res.Success? ==> Items(res.value.texts) == Items(inp.texts) + [text]
  {
    var texts :- Add(inp.texts, name, text);
    Success(inp.(texts := texts))
  }

  /** `removeText`, inherited from `Input`: only the registry changes. */
  function RemoveText<T>(inp: NumberInput<T>, name: string): (res: Result<NumberInput<T>, Error>)
    ensures res.Failure? <==> !Has(inp.texts, name)
    ensures res.Failure? ==> res.error == DoesNotExist(name)
    ensures res.Success? ==> res.value.value == inp.value && res.value.min == inp.min && res.value.max == inp.max
    ensures res.Success? ==> !Has(res.value.texts, name)
    ensures res.Success? ==> forall m | m != name :: Get(res.value.texts, m) == Get(inp.texts, m)
    ensures res.Success? && Distinct(inp.texts) ==> exists k | 0 <= k < |inp.texts| ::
      inp.texts[k].name == name && res.value.texts == inp.texts[..k] + inp.texts[k + 1..]
  {
    var texts :- Remove(inp.texts, name);
    Success(inp.(texts := texts))
  }

  /** The loop of `notify` over `texts.values()`, one `update` call per
      registry entry in iteration order, written as a loop.  This is a side
      proof that the loop visits exactly `Items(texts)`, the fan-out list
      `Notify` returns for an accepted number. */
  method UpdatedTexts<T>(texts: Registry<T>) returns (updated: seq<T>)
    ensures updated == Items(texts)
  {
    updated := [];
    var i := 0;
    while i < |texts|
      invariant 0 <= i <= |texts|
      invariant |updated| == i
      invariant forall k | 0 <= k < i :: updated[k] == texts[k].item
    {
      updated := updated + [texts[i].item];
      i := i + 1;
    }
  }

  /** `notify`: the field after the event, and the texts refreshed with the
      new value, in order. */
  function Notify<T>(inp: NumberInput<T>, e: InputEvent): (r: (NumberInput<T>, seq<T>))
    ensures r.0.min == inp.min && r.0.max == inp.max && r.0.texts == inp.texts
    ensures e.Cleared? ==> r.0.value == None && r.1 == []
    ensures e.Entered? && InRange(inp, e.number) ==> r.0.value == Some(e.number) && r.1 == Items(inp.texts)
    ensures e.NotANumber? || (e.Entered? && !InRange(inp, e.number)) ==> r.0 == inp && r.1 == []
  {
    match e
    case Cleared => (inp.(value := None), [])
    case Entered(number) =>
      if InRange(inp, number) then (inp.(value := Some(number)), Items(inp.texts)) else (inp, [])
    case NotANumber => (inp, [])
  }

  /** Every number `notify` stores lies within the bounds, so a field whose
      value starts within them keeps it there. */
  lemma NotifyKeepsValueInRange<T>(inp: NumberInput<T>, e: InputEvent)
    ensures Notify(inp, e).0.value != inp.value ==> ValueInRange(Notify(inp, e).0)
    ensures ValueInRange(inp) ==> ValueInRange(Notify(inp, e).0)
  {
  }

  /** Texts are refreshed exactly when a number is stored, and then every
      registered text is refreshed once. */
  lemma NotifyRefreshesIffStored<T>(inp: NumberInput<T>, e: InputEvent)
    requires |inp.texts| > 0
    ensures |Notify(inp, e).1| > 0 <==> e.Entered? && Notify(inp, e).0.value == Some(e.number) && InRange(inp, e.number)
    ensures |Notify(inp, e).1| > 0 ==> |Notify(inp, e).1| == |inp.texts|
  {
  }
}
