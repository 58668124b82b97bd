/** The two derived-text callbacks of the widget: tip amount per person and
    total per person.  JavaScript numbers are modelled as exact reals and an
    `undefined` input value as `None`. */
module Tip {
  import opened Wrappers

  /** The current values of the four named inputs a derived text reads. */
  datatype Fields = Fields(
    bill: Option<real>,
    people: Option<real>,
    customTip: Option<real>,
    radioTip: Option<real>)

  /** `v || 0`: an undefined value reads as zero. */
  function OrZero(v: Option<real>): real {
    match v
    case None => 0.0
    case Some(x) => x
  }

  function Bill(f: Fields): real { OrZero(f.bill) }

  function People(f: Fields): real { OrZero(f.people) }

  /** The tip percentage in force: a custom tip overrides the radio choice
      unless it is missing or zero. */
  function TipPercentage(f: Fields): (pct: real)
    ensures f.customTip.Some? && f.customTip.value != 0.0 ==> pct == f.customTip.value
    ensures (f.customTip.None? || f.customTip.value == 0.0) && f.radioTip.Some? ==> pct == f.radioTip.value
    ensures (f.customTip.None? || f.customTip.value == 0.0) && f.radioTip.None? ==> pct == 0.0
  {
    var custom := OrZero(f.customTip);
    if custom == 0.0 then OrZero(f.radioTip) else custom
  }

  /** The tip-amount callback.  With nobody to split between it returns
      `previous`, the number `parseInt` re-reads from its display. */
  function TipAmountPerPerson(f: Fields, previous: real): (r: real)
    ensures People(f) > 0.0 ==> r * People(f) == Bill(f) * TipPercentage(f) / 100.0
    ensures People(f) <= 0.0 ==> r == previous
  {
    var people := People(f);
    if people <= 0.0 then previous
    else
      var tipAmount := Bill(f) * TipPercentage(f) / 100.0;
      tipAmount / people
  }

  /** The total callback, with the same guard as `TipAmountPerPerson`. */
  function TotalPerPerson(f: Fields, previous: real): (r: real)
    ensures People(f) > 0.0 ==> r * People(f) == Bill(f) * (1.0 + TipPercentage(f) / 100.0)
    ensures People(f) <= 0.0 ==> r == previous
  {
    var people := People(f);
    if people <= 0.0 then previous
    else
      var total := Bill(f) * (1.0 + TipPercentage(f) / 100.0);
      total / people
  }

  /** With at least one person, `tipShare` and `totalShare` are the
      amounts each person pays so that together they cover the tip and the
      bill with tip. */
  predicate SplitsBill(f: Fields, tipShare: real, totalShare: real) {
    People(f) > 0.0 ==>
      && tipShare * People(f) == Bill(f) * TipPercentage(f) / 100.0
      && totalShare * People(f) == Bill(f) * (1.0 + TipPercentage(f) / 100.0)
  }

  /** The shares the two callbacks compute split the bill, whatever was on
      display before. */
  lemma CallbacksSplitBill(f: Fields, previousTip: real, previousTotal: real)
    ensures SplitsBill(f, TipAmountPerPerson(f, previousTip), TotalPerPerson(f, previousTotal))
  {
  }

  /** Each person's total is their share of the bill plus their share of
      the tip. */
  lemma TotalIsBillShareAndTip(f: Fields, previousTip: real, previousTotal: real)
    requires People(f) > 0.0
    ensures TotalPerPerson(f, previousTotal) == Bill(f) / People(f) + TipAmountPerPerson(f, previousTip)
  {
  }

  /** The tip share is the only amount that, paid by every person, makes up
      the whole tip. */
  lemma TipShareIsUnique(f: Fields, previous: real, share: real)
    requires People(f) > 0.0
    ensures share * People(f) == Bill(f) * TipPercentage(f) / 100.0
        <==> share == TipAmountPerPerson(f, previous)
  {
  }

  /** While a non-zero custom tip is set, the radio selection has no effect
      on either derived value. */
  lemma CustomTipOverridesRadio(f: Fields, radioTip: Option<real>, previous: real)
    requires f.customTip.Some? && f.customTip.value != 0.0
    ensures TipAmountPerPerson(f.(radioTip := radioTip), previous) == TipAmountPerPerson(f, previous)
    ensures TotalPerPerson(f.(radioTip := radioTip), previous) == TotalPerPerson(f, previous)
  {
  }

  /** An undefined input and an input holding zero give the same results. */
  lemma UndefinedCountsAsZero(f: Fields, previousTip: real, previousTotal: real)
    ensures var z := Fields(
              Some(Bill(f)), Some(People(f)), Some(OrZero(f.customTip)), Some(OrZero(f.radioTip)));
            TipAmountPerPerson(z, previousTip) == TipAmountPerPerson(f, previousTip)
            && TotalPerPerson(z, previousTotal) == TotalPerPerson(f, previousTotal)
  {
  }
}
