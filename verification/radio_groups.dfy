/** `RadioGroupNumber`: a group of radio buttons whose value is the integer
    value of the checked option. */
module RadioGroups {
  import opened Wrappers
  import opened Registries

  /** One radio element: whether it is checked, and its `value` attribute
      as `parseInt` reads it. */
  datatype RadioOption = RadioOption(checked: bool, value: int)

  datatype RadioGroupNumber<T> = RadioGroupNumber(value: Option<int>, texts: Registry<T>)

  /** What an `input` event on the group carries: the empty string or the
      parsed value of the option picked. */
  datatype RadioEvent = Unselected | Picked(number: int)

  ghost predicate NoneChecked(options: seq<RadioOption>) {
    forall j | 0 <= j < |options| :: !options[j].checked
  }

  ghost predicate IsLastChecked(options: seq<RadioOption>, k: int) {
    && 0 <= k < |options|
    && options[k].checked
    && forall j | k < j < |options| :: !options[j].checked
  }

  /** The constructor's initial value: the loop over the options overwrites
      the value at every checked one, so the last checked option wins, and
      the value stays 0 when none is checked. */
  function InitialValue(options: seq<RadioOption>): (v: int)
    ensures NoneChecked(options) ==> v == 0
    ensures !NoneChecked(options) ==> exists k :: IsLastChecked(options, k) && v == options[k].value
  {
    if |options| == 0 then 0
    else
      var last := |options| - 1;
      if options[last].checked then
        assert IsLastChecked(options, last);
        options[last].value
      else
        var prefix := options[..last];
        var v := InitialValue(prefix);
        assert NoneChecked(prefix) ==> NoneChecked(options);
        assert !NoneChecked(prefix) ==> exists k :: IsLastChecked(options, k) && v == options[k].value by {
          if !NoneChecked(prefix) {
            var k :| IsLastChecked(prefix, k) && v == prefix[k].value;
            assert IsLastChecked(options, k);
          }
        }
        v
  }

  /** The constructor: no texts yet, and the value of the last checked
      option, or 0 when none is checked. */
  function FromOptions<T>(options: seq<RadioOption>): (g: RadioGroupNumber<T>)
    ensures g.texts == []
    ensures NoneChecked(options) ==> g.value == Some(0)
    ensures !NoneChecked(options) ==> exists k :: IsLastChecked(options, k) && g.value == Some(options[k].value)
  {
    RadioGroupNumber(Some(InitialValue(options)), [])
  }

  /** A checked option's value is the group's value unless a later option
      is checked too. */
  lemma CheckedOptionWins(options: seq<RadioOption>, k: int)
    requires 0 <= k < |options| && options[k].checked
    requires forall j | k < j < |options| :: !options[j].checked
    ensures FromOptions<int>(options).value == Some(options[k].value)
  {
  }

  function AddText<T>(g: RadioGroupNumber<T>, name: string, text: T): (res: Result<RadioGroupNumber<T>, Error>)
    ensures res.Failure? <==> Has(g.texts, name)
    ensures res.Failure? ==> res.error == AlreadyDefined(name)
    ensures res.Success? ==> res.value.value == g.value
    ensures res.Success? ==> Get(res.value.texts, name) == Some(text)
    ensures res.Success? ==> forall m | m != name :: Get(res.value.texts, m) == Get(g.texts, m)
    ensures res.Success? ==> Items(res.value.texts) == Items(g.texts) + [text]
  {
    var texts :- Add(g.texts, name, text);
    Success(g.(texts := texts))
  }

  function RemoveText<T>(g: RadioGroupNumber<T>, name: string): (res: Result<RadioGroupNumber<T>, Error>)
    ensures res.Failure? <==> !Has(g.texts, name)
    ensures res.Failure? ==> res.error == DoesNotExist(name)
    ensures res.Success? ==> res.value.value == g.value
    ensures res.Success? ==> !Has(res.value.texts, name)
    ensures res.Success? ==> forall m | m != name :: Get(res.value.texts, m) == Get(g.texts, m)
    ensures res.Success? && Distinct(g.texts) ==> exists k | 0 <= k < |g.texts| ::
      g.texts[k].name == name && res.value.texts == g.texts[..k] + g.texts[k + 1..]
  {
    var texts :- Remove(g.texts, name);
    Success(g.(texts := texts))
  }

  /** `notify` without the set-callback: a picked value is stored with no
      range check and every registered text is refreshed. */
  function Notify<T>(g: RadioGroupNumber<T>, e: RadioEvent): (r: (RadioGroupNumber<T>, seq<T>))
    ensures r.0.texts == g.texts
    ensures e.Unselected? ==> r.0.value == None && r.1 == []
    ensures e.Picked? ==> r.0.value == Some(e.number) && r.1 == Items(g.texts)
  {
    match e
    case Unselected => (g.(value := None), [])
    case Picked(number) => (g.(value := Some(number)), Items(g.texts))
  }
}
