/** The widget as wired at start-up: three number inputs (bill, people,
    custom tip) and a radio group of tip percentages, each refreshing the
    tip-amount text and the total text, which in turn read all four. */
module TipCalculator {
  import opened Wrappers
  import opened Registries
  import opened NumberInputs
  import opened RadioGroups
  import opened Texts
  import Tip

  datatype InputId = Bill | People | CustomTip | RadioTip

  datatype TextId = TipAmount | Total

  /** The parsed `min` and `max` attributes of a number field. */
  datatype Bounds = Bounds(min: Option<int>, max: Option<int>)

  datatype App = App(
    bill: NumberInput<TextId>,
    people: NumberInput<TextId>,
    customTip: NumberInput<TextId>,
    radio: RadioGroupNumber<TextId>,
    tipAmountText: Text<InputId>,
    totalText: Text<InputId>,
    tipAmountShown: real,
    totalShown: real)

  /** One user event on one of the four inputs. */
  datatype AppEvent =
    | BillTyped(e: InputEvent)
    | PeopleTyped(e: InputEvent)
    | CustomTipTyped(e: InputEvent)
    | RadioPicked(r: RadioEvent)

  /** An input's texts as start-up registers them: the tip-amount text,
      then the total text. */
  predicate TextsWired(texts: Registry<TextId>) {
    Items(texts) == [TipAmount, Total]
  }

  /** The registries as start-up leaves them. */
  predicate Wired(app: App) {
    && TextsWired(app.bill.texts)
    && TextsWired(app.people.texts)
    && TextsWired(app.customTip.texts)
    && TextsWired(app.radio.texts)
    && app.tipAmountText.callback == Some(TipAmountCallback) && InputsWired(app.tipAmountText.inputs, Bill, RadioTip, People, CustomTip)
    && app.totalText.callback == Some(TotalCallback) && InputsWired(app.totalText.inputs, Bill, RadioTip, People, CustomTip)
  }

  /** The wired app with every number field holding a number within its
      bounds, or nothing. */
  predicate Valid(app: App) {
    && Wired(app)
    && ValueInRange(app.bill)
    && ValueInRange(app.people)
    && ValueInRange(app.customTip)
  }

  function InputValue(app: App, id: InputId): Option<real> {
    match id
    case Bill => app.bill.value
    case People => app.people.value
    case CustomTip => app.customTip.value
    case RadioTip => if app.radio.value.Some? then Some(app.radio.value.value as real) else None
  }

  /** The values the derived texts read. */
  function FieldsOf(app: App): Tip.Fields {
    Tip.Fields(InputValue(app, Bill), InputValue(app, People), InputValue(app, CustomTip), InputValue(app, RadioTip))
  }

  /** Registers both texts with a fresh number field.  Start-up interleaves
      these calls across the fields; each field's registry sees them in this
      order. */
  function WireNumberInput(inp: NumberInput<TextId>): (r: Result<NumberInput<TextId>, Error>)
    requires inp.texts == []
    ensures r.Success?
    ensures r.value.value == inp.value && r.value.min == inp.min && r.value.max == inp.max
    ensures TextsWired(r.value.texts)
  {
    var inp' := NumberInputs.AddText(inp, "tipAmount", TipAmount);
    if inp'.Failure? then inp' else NumberInputs.AddText(inp'.value, "total", Total)
  }

  function WireRadioGroup(g: RadioGroupNumber<TextId>): (r: Result<RadioGroupNumber<TextId>, Error>)
    requires g.texts == []
    ensures r.Success?
    ensures r.value.value == g.value
    ensures TextsWired(r.value.texts)
  {
    var g' := RadioGroups.AddText(g, "tipAmount", TipAmount);
    if g'.Failure? then g' else RadioGroups.AddText(g'.value, "total", Total)
  }

  /** Start-up: construct the inputs and texts, then register every text
      with every input and every input with every text; no registration
      meets a name already taken.  `tipShown` and `totalShown` are the
      numbers the page initially displays. */
  function Setup(billBounds: Bounds, peopleBounds: Bounds, tipBounds: Bounds, options: seq<RadioOption>,
                 tipShown: real, totalShown: real): (app: App)
    ensures Wired(app)
    ensures app.bill.value == Some(0.0) && app.people.value == Some(0.0) && app.customTip.value == Some(0.0)
    ensures app.radio.value == Some(InitialValue(options))
    ensures InRange(app.bill, 0.0) && InRange(app.people, 0.0) && InRange(app.customTip, 0.0) ==> Valid(app)
  {
    var bill := WireNumberInput(FromAttributes(0.0, billBounds.min, billBounds.max)).value;
    var people := WireNumberInput(FromAttributes(0.0, peopleBounds.min, peopleBounds.max)).value;
    var customTip := WireNumberInput(FromAttributes(0.0, tipBounds.min, tipBounds.max)).value;
    var radio := WireRadioGroup(FromOptions(options)).value;
    var tipAmountText := WireInputs(Text(Some(TipAmountCallback), []), Bill, RadioTip, People, CustomTip).value;
    var totalText := WireInputs(Text(Some(TotalCallback), []), Bill, RadioTip, People, CustomTip).value;
    App(bill, people, customTip, radio, tipAmountText, totalText, tipShown, totalShown)
  }

  /** Refresh one text: call its `update` with `newValue` and display the
      result.  `reRead` maps the number a text shows to the number
      `parseInt` recovers from its formatted text content; the callbacks
      keep that number when there is nobody to split between. */
  function RefreshOne(app: App, target: TextId, newValue: real, reRead: real -> real): (r: Result<App, UpdateError>)
    ensures r.Success? ==> r.value == app.(tipAmountShown := r.value.tipAmountShown, totalShown := r.value.totalShown)
    ensures r.Success? && target == TipAmount ==> r.value.totalShown == app.totalShown
    ensures r.Success? && target == Total ==> r.value.tipAmountShown == app.tipAmountShown
  {
    var valueOf := (id: InputId) => InputValue(app, id);
    match target
    case TipAmount =>
      var shown :- Update(app.tipAmountText, valueOf, newValue, reRead(app.tipAmountShown));
      Success(app.(tipAmountShown := shown))
    case Total =>
      var shown :- Update(app.totalText, valueOf, newValue, reRead(app.totalShown));
      Success(app.(totalShown := shown))
  }

  /** Refresh the texts `notify` returned, in order.  Only the two displays
      change; with nothing to refresh, nothing changes. */
  function Refresh(app: App, targets: seq<TextId>, newValue: real, reRead: real -> real): (r: Result<App, UpdateError>)
    ensures r.Success? ==> r.value == app.(tipAmountShown := r.value.tipAmountShown, totalShown := r.value.totalShown)
    ensures targets == [] ==> r == Success(app)
    decreases |targets|
  {
    if |targets| == 0 then Success(app)
    else
      var app' :- RefreshOne(app, targets[0], newValue, reRead);
      Refresh(app', targets[1..], newValue, reRead)
  }

  /** The `notify` half of one event: the app with the event's input
      updated, the texts that input returned, and the value it sends them.
      Only the event's own input changes, and the texts are returned exactly
      when the input accepts the event. */
  function Notified(app: App, ev: AppEvent): (r: (App, seq<TextId>, real))
    ensures r.0.tipAmountText == app.tipAmountText && r.0.totalText == app.totalText
    ensures r.0.tipAmountShown == app.tipAmountShown && r.0.totalShown == app.totalShown
    ensures r.0.bill.texts == app.bill.texts && r.0.people.texts == app.people.texts
    ensures r.0.customTip.texts == app.customTip.texts && r.0.radio.texts == app.radio.texts
    ensures !ev.BillTyped? ==> r.0.bill == app.bill
    ensures !ev.PeopleTyped? ==> r.0.people == app.people
    ensures !ev.CustomTipTyped? ==> r.0.customTip == app.customTip
    ensures !ev.RadioPicked? ==> r.0.radio == app.radio
    ensures !Accepted(app, ev) ==> r.1 == []
    ensures Accepted(app, ev) && Wired(app) ==> r.1 == [TipAmount, Total]
    ensures Valid(app) ==> Valid(r.0)
  {
    match ev
    case BillTyped(e) =>
      var (bill, targets) := NumberInputs.Notify(app.bill, e);
      NotifyKeepsValueInRange(app.bill, e);
      (app.(bill := bill), targets, Tip.OrZero(bill.value))
    case PeopleTyped(e) =>
      var (people, targets) := NumberInputs.Notify(app.people, e);
      NotifyKeepsValueInRange(app.people, e);
      (app.(people := people), targets, Tip.OrZero(people.value))
    case CustomTipTyped(e) =>
      var (customTip, targets) := NumberInputs.Notify(app.customTip, e);
      NotifyKeepsValueInRange(app.customTip, e);
      (app.(customTip := customTip), targets, Tip.OrZero(customTip.value))
    case RadioPicked(r) =>
      var (radio, targets) := RadioGroups.Notify(app.radio, r);
      (app.(radio := radio), targets, if radio.value.Some? then radio.value.value as real else 0.0)
  }

  /** One event: the input's `notify`, then `update` on the texts it
      returned.  The event changes only its own input and the two displays,
      the registries never change, and the displays change only when the
      input accepts the event. */
  function OnEvent(app: App, ev: AppEvent, reRead: real -> real): (r: Result<App, UpdateError>)
    ensures r.Success? ==>
      && r.value.tipAmountText == app.tipAmountText && r.value.totalText == app.totalText
      && r.value.bill.texts == app.bill.texts && r.value.people.texts == app.people.texts
      && r.value.customTip.texts == app.customTip.texts && r.value.radio.texts == app.radio.texts
    ensures r.Success? && !ev.BillTyped? ==> r.value.bill == app.bill
    ensures r.Success? && !ev.PeopleTyped? ==> r.value.people == app.people
    ensures r.Success? && !ev.CustomTipTyped? ==> r.value.customTip == app.customTip
    ensures r.Success? && !ev.RadioPicked? ==> r.value.radio == app.radio
    ensures !Accepted(app, ev) ==> r.Success?
    ensures r.Success? && !Accepted(app, ev) ==>
      r.value.tipAmountShown == app.tipAmountShown && r.value.totalShown == app.totalShown
  {
    var (app', targets, newValue) := Notified(app, ev);
    Refresh(app', targets, newValue, reRead)
  }

  /** Whether the event's input accepts it and so refreshes the texts. */
  predicate Accepted(app: App, ev: AppEvent) {
    match ev
    case BillTyped(e) => e.Entered? && InRange(app.bill, e.number)
    case PeopleTyped(e) => e.Entered? && InRange(app.people, e.number)
    case CustomTipTyped(e) => e.Entered? && InRange(app.customTip, e.number)
    case RadioPicked(r) => r.Picked?
  }

  /** A wired text reads exactly the app's current inputs. */
  lemma ReadWiredFields(app: App, inputs: Registry<InputId>)
    requires InputsWired(inputs, Bill, RadioTip, People, CustomTip)
    ensures ReadFields(inputs, (id: InputId) => InputValue(app, id)) == Success(FieldsOf(app))
  {
  }

  /** In a wired app, refreshing both texts displays what the two callbacks
      compute from the current inputs, and changes nothing else. */
  lemma RefreshWired(app: App, newValue: real, reRead: real -> real)
    requires Wired(app)
    ensures Refresh(app, [TipAmount, Total], newValue, reRead).Success?
    ensures var app' := Refresh(app, [TipAmount, Total], newValue, reRead).value;
      && app' == app.(tipAmountShown := app'.tipAmountShown, totalShown := app'.totalShown)
      && app'.tipAmountShown == Tip.TipAmountPerPerson(FieldsOf(app), reRead(app.tipAmountShown))
      && app'.totalShown == Tip.TotalPerPerson(FieldsOf(app), reRead(app.totalShown))
  {
    ReadWiredFields(app, app.tipAmountText.inputs);
    var app1 := app.(tipAmountShown := Tip.TipAmountPerPerson(FieldsOf(app), reRead(app.tipAmountShown)));
    assert RefreshOne(app, TipAmount, newValue, reRead) == Success(app1);
    DisplaysAreNotRead(app, app1.tipAmountShown, app.totalShown);
    ReadWiredFields(app1, app1.totalText.inputs);
    var app2 := app1.(totalShown := Tip.TotalPerPerson(FieldsOf(app), reRead(app.totalShown)));
    assert RefreshOne(app1, Total, newValue, reRead) == Success(app2);
    assert [TipAmount, Total][1..] == [Total];
    assert Refresh(app1, [Total], newValue, reRead) == Success(app2) by {
      assert [Total][1..] == [];
    }
  }

  /** What one event does to a valid app: it succeeds and keeps the app
      valid; if accepted, both texts then show what the callbacks compute
      from the new inputs and from the re-read of what they showed before,
      and otherwise both displays stay as they were. */
  ghost predicate HandledConsistently(app: App, ev: AppEvent, reRead: real -> real, r: Result<App, UpdateError>) {
    && r.Success?
    && Valid(r.value)
    && (Accepted(app, ev) ==>
          && r.value.tipAmountShown == Tip.TipAmountPerPerson(FieldsOf(r.value), reRead(app.tipAmountShown))
          && r.value.totalShown == Tip.TotalPerPerson(FieldsOf(r.value), reRead(app.totalShown)))
    && (!Accepted(app, ev) ==>
          r.value.tipAmountShown == app.tipAmountShown && r.value.totalShown == app.totalShown)
  }

  /** An accepted event on a wired app refreshes both texts from the
      updated inputs. */
  lemma AcceptedEventRefreshes(app: App, ev: AppEvent, reRead: real -> real)
    requires Wired(app) && Accepted(app, ev)
    ensures var app1 := Notified(app, ev).0;
      OnEvent(app, ev, reRead) == Success(app1.(
        tipAmountShown := Tip.TipAmountPerPerson(FieldsOf(app1), reRead(app.tipAmountShown)),
        totalShown := Tip.TotalPerPerson(FieldsOf(app1), reRead(app.totalShown))))
    ensures FieldsOf(OnEvent(app, ev, reRead).value) == FieldsOf(Notified(app, ev).0)
  {
    var (app1, targets, newValue) := Notified(app, ev);
    RefreshWired(app1, newValue, reRead);
    DisplaysAreNotRead(app1, OnEvent(app, ev, reRead).value.tipAmountShown, OnEvent(app, ev, reRead).value.totalShown);
  }

  /** The texts read the inputs only, never what the texts display. */
  lemma DisplaysAreNotRead(app: App, tipAmountShown: real, totalShown: real)
    ensures FieldsOf(app.(tipAmountShown := tipAmountShown, totalShown := totalShown)) == FieldsOf(app)
  {
  }

  /** A rejected event updates its input and refreshes nothing. */
  lemma RejectedEventRefreshesNothing(app: App, ev: AppEvent, reRead: real -> real)
    requires !Accepted(app, ev)
    ensures OnEvent(app, ev, reRead) == Success(Notified(app, ev).0)
  {
  }

  /** The central invariant: every event on a valid app is handled
      consistently. */
  lemma EventKeepsDisplaysConsistent(app: App, ev: AppEvent, reRead: real -> real)
    requires Valid(app)
    ensures HandledConsistently(app, ev, reRead, OnEvent(app, ev, reRead))
  {
    var app1 := Notified(app, ev).0;
    if Accepted(app, ev) {
      AcceptedEventRefreshes(app, ev, reRead);
    } else {
      RejectedEventRefreshesNothing(app, ev, reRead);
    }
  }

  /** After an accepted event the displayed shares split the bill among
      the people now entered, whatever the displays re-read as. */
  lemma AcceptedEventSplitsBill(app: App, ev: AppEvent, reRead: real -> real)
    requires Valid(app) && Accepted(app, ev)
    ensures OnEvent(app, ev, reRead).Success?
    ensures var app' := OnEvent(app, ev, reRead).value;
      Tip.SplitsBill(FieldsOf(app'), app'.tipAmountShown, app'.totalShown)
  {
    EventKeepsDisplaysConsistent(app, ev, reRead);
    var app' := OnEvent(app, ev, reRead).value;
    Tip.CallbacksSplitBill(FieldsOf(app'), reRead(app.tipAmountShown), reRead(app.totalShown));
  }
}
