# Tip calculator — a verified model

This project models the logic under the DOM wiring of a small browser tip
calculator (`index.js`). Three number fields (bill, number of people, custom
tip percentage) and a radio group of tip percentages feed two read-only
texts: the tip amount per person and the total per person.

The model has these parts:

- **Registries** (`registries.dfy`). `Input.addText`/`removeText`,
  `RadioGroupNumber.addText`/`removeText` and `Text.addInput`/`removeInput`
  each keep a name-keyed JavaScript `Map`. Adding a taken name throws, and so
  does removing a name that is not bound. A `Map` iterates in insertion
  order, so a registry is the sequence of its entries. `Get` is its view as a
  finite map.
- **Tip** (`tip.dfy`). These are the two update callbacks. Numbers are exact
  `real`s and an `undefined` value is `None`. `v || 0` reads `None` as zero.
  A non-zero custom tip overrides the radio choice. When the number of people
  is not positive, a callback returns `previous`: the number it re-reads from
  its own display with `parseInt`.
- **NumberInputs** (`number_inputs.dfy`). This covers the bounds defaults
  (`min` 0, `max` `Number.MAX_SAFE_INTEGER`) and `notify` as a pure step. A
  cleared field becomes `undefined` and refreshes nothing. A number within
  the bounds is stored, and every registered text is refreshed once, in
  registration order. Anything else is ignored.
- **RadioGroups** (`radio_groups.dfy`). This covers the constructor's
  initial value (the last checked option wins, 0 if none is checked) and
  `notify`.
- **Texts** (`texts.dfy`). This is `update`. A text's callback reads the
  four named inputs from its own registry and reports the first name that is
  not registered.
- **TipCalculator** (`tip_calculator.dfy`). This is the start-up wiring and
  one user event at a time. Re-reading a display is a parameter `reRead`,
  which maps the number a text shows to the number `parseInt` recovers from
  its formatted text. The central lemma says that in the wired app, every
  event succeeds and keeps each field's value within its bounds. After an
  accepted event, both texts show what the callbacks compute from the new
  inputs and the re-read displays. After any other event, the displays are
  unchanged.

A custom tip of 0 falls back to the radio value, because the code tests
`!customTipValue` (index.js:272).

## Model

| member | source | states |
|---|---|---|
| Registries.Add | index.js:16-23 | Adding a bound name fails with "already defined" exactly when the name is taken. Otherwise it binds the name to the item, leaves every other binding as it was, appends the item last in iteration order, and keeps names distinct. |
| Registries.Remove | index.js:25-32 | Removing fails with "doesn't exist" exactly when the name is unbound. Otherwise the name becomes unbound and every other binding is kept. In a registry with distinct names, exactly the entry with that name is spliced out, and the other entries keep their order. |
| Registries.WithoutKeepsOrder | index.js:25-32 | In a registry with distinct names, deleting a bound name drops exactly its one entry and keeps the others in iteration order. |
| Registries.AddThenRemove | index.js:16-32 | Adding a fresh name and then removing it gives back the original registry, order included. |
| Registries.RemoveThenAdd | index.js:16-32 | Removing a bound name and re-adding its item restores every binding. |
| Tip.TipPercentage | index.js:267-272 | A custom tip that is defined and non-zero is the percentage. Otherwise the radio value is the percentage, and an undefined radio value gives 0. |
| Tip.TipAmountPerPerson | index.js:264-277 | With people > 0, the result times people equals bill × percentage / 100. With people ≤ 0 or undefined, the result is `previous`, the number `parseInt` re-reads from the display. |
| Tip.TotalPerPerson | index.js:279-292 | With people > 0, the result times people equals bill × (1 + percentage / 100). With people ≤ 0 or undefined, the result is `previous`, the number `parseInt` re-reads from the display. |
| Tip.CallbacksSplitBill | index.js:264-292 | The two callbacks' results always satisfy the split-the-bill relation `SplitsBill`. |
| Tip.TotalIsBillShareAndTip | index.js:272-289 | With people > 0, total per person = bill / people + tip per person. |
| Tip.TipShareIsUnique | index.js:272-276 | With people > 0, an amount times people equals the tip exactly when it is the computed tip per person. |
| Tip.CustomTipOverridesRadio | index.js:272 | While the custom tip is non-zero, changing the radio value changes neither callback's result. |
| Tip.UndefinedCountsAsZero | index.js:265-268 | Replacing every undefined input by 0 changes neither callback's result. |
| NumberInputs.FromAttributes | index.js:48-62 | A new field holds the default value and no texts. `min` defaults to 0 and `max` to 2^53 − 1 when the attribute is absent. |
| NumberInputs.DefaultBounds | index.js:60-61 | Without attributes, a field accepts exactly the numbers from 0 to 9007199254740991. |
| NumberInputs.AddText | index.js:16-23 | `addText` on a number field changes only its text registry. It fails exactly when the name is taken. Otherwise it binds the name and appends the text last in iteration order. |
| NumberInputs.RemoveText | index.js:25-32 | `removeText` on a number field changes only its text registry. It fails exactly when the name is unbound. Otherwise it splices out that one entry and keeps the others in order. |
| NumberInputs.UpdatedTexts | index.js:87-91 | The refresh loop visits the registered texts in iteration order, each once: exactly the registry's items. |
| NumberInputs.Notify | index.js:64-93 | Bounds and registry never change. Blank input gives `undefined` and refreshes nothing. An in-range number is stored and every text is refreshed in order. An out-of-range number or NaN leaves the field unchanged and refreshes nothing. |
| NumberInputs.NotifyKeepsValueInRange | index.js:83-92 | Any value `notify` stores lies within [min, max], so a field whose value is in range stays in range. |
| NumberInputs.NotifyRefreshesIffStored | index.js:83-92 | Texts are refreshed exactly when an in-range number is stored, and then all of them are. |
| RadioGroups.InitialValue | index.js:109-122 | With no option checked, the initial value is 0. Otherwise it is the value of the last checked option. |
| RadioGroups.FromOptions | index.js:105-130 | A new group has no texts. With no option checked it holds 0; otherwise it holds the value of the last checked option. |
| RadioGroups.CheckedOptionWins | index.js:118-122 | A checked option with no checked option after it sets the group's initial value. |
| RadioGroups.AddText | index.js:132-139 | `addText` on the radio group changes only its text registry. It fails exactly when the name is taken. Otherwise it binds the name and appends the text last in iteration order. |
| RadioGroups.RemoveText | index.js:141-148 | `removeText` on the radio group changes only its text registry. It fails exactly when the name is unbound. Otherwise it splices out that one entry and keeps the others in order. |
| RadioGroups.Notify | index.js:150-170 | Blank input gives `undefined` and refreshes nothing. A picked value is stored without a range check and every text is refreshed in order. |
| Texts.AddInput | index.js:200-207 | `addInput` changes only the text's input registry. It fails exactly when the name is taken. Otherwise it binds the name, keeps every other binding, and appends the input last in iteration order. |
| Texts.RemoveInput | index.js:209-216 | `removeInput` changes only the text's input registry. It fails exactly when the name is unbound. Otherwise it unbinds the name, keeps every other binding, and in a registry with distinct names splices out that one entry. |
| Texts.WireInputs | index.js:304-312 | Registering the four inputs with a fresh text, in the source's order, never throws. It keeps the callback and binds each callback name to its input. |
| Texts.ReadFields | index.js:265-268 | Reading succeeds exactly when "bill", "people", "customTip" and "radioTip" are all registered, and then it yields each registered input's current value. A missing "bill" is reported first. |
| Texts.Update | index.js:218-230 | With no callback, the text shows the value it was sent. With a callback, it shows the callback's result on the fields it reads, and fails exactly when a field is unregistered. |
| Texts.CallbackIgnoresSentValue | index.js:264-292 | A text with a callback displays the same result whatever value it is sent. |
| TipCalculator.WireNumberInput | index.js:294-302 | Registering the two texts with a fresh field never throws. It leaves the texts in the order tip amount, then total, and changes nothing else. |
| TipCalculator.WireRadioGroup | index.js:296-301 | Registering the two texts with the fresh radio group never throws and changes nothing else. |
| TipCalculator.Setup | index.js:257-312 | Start-up never throws and leaves every registry wired. The fields hold 0 and the radio group holds its initial value. The app is valid when 0 lies within each field's bounds. |
| TipCalculator.ReadWiredFields | index.js:304-312 | A wired text reads exactly the app's current input values. |
| TipCalculator.RefreshWired | index.js:87-91 | Refreshing both texts in a wired app shows both callbacks' results on the current inputs, each with the re-read of its own previous display. It changes nothing else. |
| TipCalculator.Refresh | index.js:87-91 | `notify`'s fan-out loop with `Text.update`'s display write (index.js:229): only the two displays change, and an empty list of texts changes nothing. |
| TipCalculator.Notified | index.js:64-93 | The `notify` half of an event changes only the event's own input, never the registries or displays. It keeps a valid app valid. It returns no texts when the input rejects the event, and both texts in order when the input accepts it. |
| TipCalculator.OnEvent | index.js:64-93 | An event changes only its own input and the two displays, and never a registry. A rejected event succeeds and leaves both displays as they were. |
| TipCalculator.AcceptedEventRefreshes | index.js:83-91 | An accepted event on a wired app displays both callbacks' results on the updated inputs and the re-read previous displays. The inputs the texts read are those `notify` left. |
| TipCalculator.RejectedEventRefreshesNothing | index.js:69-92 | A rejected event updates at most its own input and refreshes no text. |
| TipCalculator.EventKeepsDisplaysConsistent | index.js:64-93 | Every event on a valid app succeeds and keeps it valid. An accepted event leaves both displays equal to the callbacks' results on the new inputs and the re-read previous displays. Any other event leaves both displays unchanged. |
| TipCalculator.AcceptedEventSplitsBill | index.js:264-292 | After an accepted event with at least one person, the displayed shares times people equal the tip and the bill with tip. |

## Left out

- DOM access is left out: element lookup, the `tagName`/`type` checks in the constructors, event listeners and `textContent` writes. The model starts from the values those produce.
- Parsing and formatting are left out: `parseInt`/`parseFloat` of a field's text, `toLocaleString`, and `parseInt` of the `min`/`max`/`value` attributes. An event arrives already parsed, as a number, as blank, or as NaN. Attributes arrive as optional integers. The `inputmode` check that picks the parser goes with them.
- TipCalculator.OnEvent: the displays are numbers, not text. The callbacks' `parseInt(textContent)` of a display formatted by `toLocaleString` is the abstract function `reRead`, which maps the shown number to a number. A NaN re-read is not representable, for example from a display whose text does not start with a digit. The claim that an event changes only its own input holds for a radio pick only without the set-callback, which sets the custom tip to 0 after the refresh (index.js:171, 260-262). A failed `update` returns no app, while the program keeps the number `notify` stored at index.js:86 before its loop at 87-91; that path cannot occur in a wired app.
- IEEE-754 behaviour is left out: rounding, `Infinity`, and NaN in the bounds or in radio values. Arithmetic is exact over `real`. NaN input to a number field is modelled as never in range.
- `Input.notify`, `getValue` and `setValue` stubs are left out; they only log or return `undefined`.
- The `setValue` methods, the `Button` class and the reset handler are left out. They write DOM attributes and bypass range checks.
- RadioGroups.Notify: does not run the group's set-callback. In the app that callback resets the custom tip field through `setValue`, which is outside the model. It runs after the texts have been refreshed (index.js:171, 260-262).
- TipCalculator.EventKeepsDisplaysConsistent: holds for a radio pick only without the set-callback. The app's callback sets the custom tip to 0 after the refresh and refreshes no text, so the displays still reflect the old custom tip. For example, with bill 100, 2 people and custom tip 10, picking radio 20 shows a tip of 5 per person, but the inputs now give 10.
- TipCalculator.Notified: the claim that only the event's own input changes holds for a radio pick only without the set-callback. In the program, `notify` of the radio group ends by setting the custom tip to 0 (index.js:171, 260-262); with bill 100, 2 people and custom tip 10, picking radio 20 leaves the custom tip at 0, where the model keeps 10.
- TipCalculator.AcceptedEventRefreshes: the claim that the texts read the inputs `notify` left holds for a radio pick only without the set-callback. In the program the custom tip becomes 0 after the refresh, so the final inputs differ from those the texts read whenever the custom tip was non-zero.
- TipCalculator.AcceptedEventSplitsBill: holds for a radio pick only without the set-callback, for the same reason. After the callback, the displayed shares split the bill at the old custom tip, not at the tip the current inputs select.
- NumberInputs.Notify: refreshes every registered entry. The source skips entries without an `update` method, and every registered object is a `Text`, which has one.
- TipCalculator.Setup: each field's registrations are grouped together. The source interleaves them across fields, which changes no registry because each call touches one object.
