/**
 * What the older code base's data model (wsgi/shadowcon/con/models.py) does
 * differently. Its TimeBlock, TimeSlot and Game display rules are the same
 * definitions as in Models; its choice lookup and its payment choices differ.
 */
module LegacyModels {
  import opened Wrappers
  import Models

  /** The pairs whose stored value is `value`, in order (the `filter` call). */
  function Matching(value: string, choices: Models.Choices): (m: Models.Choices)
    ensures |m| <= |choices|
    ensures forall i :: 0 <= i < |m| ==> m[i].0 == value
  {
    if choices == [] then []
    else if choices[0].0 == value then [choices[0]] + Matching(value, choices[1..])
    else Matching(value, choices[1..])
  }

  /** The first match found by `filter` is the one the newer get_choice returns. */
  lemma {:induction false} MatchingStartsAtFirstMatch(value: string, choices: Models.Choices)
    ensures Matching(value, choices) == [] <==> Models.FirstMatch(value, choices) == |choices|
    ensures Matching(value, choices) != [] ==>
              Matching(value, choices)[0] == choices[Models.FirstMatch(value, choices)]
  {
    if choices != [] && choices[0].0 != value {
      MatchingStartsAtFirstMatch(value, choices[1..]);
      var k := Models.FirstMatch(value, choices[1..]);
      if k < |choices[1..]| {
        assert choices[1..][k] == choices[k + 1];
      }
    }
  }

  /**
   * get_choice in the older code: filter(...)[0][1]. It agrees with the newer
   * get_choice whenever a pair matches; with no match it indexes an empty list
   * and raises IndexError instead of ValueError.
   */
  function GetChoice(value: string, choices: Models.Choices): (r: Result<string>)
    ensures r.Ok? <==> Models.GetChoice(value, choices).Ok?
    ensures r.Ok? ==> r.value == Models.GetChoice(value, choices).value
    ensures r.Err? ==> r.error == IndexError
  {
    var m := Matching(value, choices);
    MatchingStartsAtFirstMatch(value, choices);
    FirstMatchIsNewChoice(value, choices);
    if |m| == 0 then Err(IndexError) else Ok(m[0].1)
  }

  /** The newer get_choice answers with the label at FirstMatch. */
  lemma {:induction false} FirstMatchIsNewChoice(value: string, choices: Models.Choices)
    ensures var k := Models.FirstMatch(value, choices);
            Models.GetChoice(value, choices).Ok? <==> k < |choices|
    ensures var k := Models.FirstMatch(value, choices);
            k < |choices| ==> Models.GetChoice(value, choices) == Ok(choices[k].1)
  {
    if choices != [] && choices[0].0 != value {
      FirstMatchIsNewChoice(value, choices[1..]);
      var k := Models.FirstMatch(value, choices[1..]);
      if k < |choices[1..]| {
        assert choices[1..][k] == choices[k + 1];
      }
    }
  }

  /** The label of the pair at k, when k is the first pair carrying value. */
  lemma LabelAt(value: string, choices: Models.Choices, k: nat)
    requires k < |choices| && choices[k].0 == value
    requires forall j :: 0 <= j < k ==> choices[j].0 != value
    ensures GetChoice(value, choices) == Ok(choices[k].1)
  {
    FirstMatchIsNewChoice(value, choices);
  }

  // ---------------------------------------------------------------------
  // Registration.PAYMENT_CHOICES

  const PaymentCash: string := "C"
  const PaymentQuickPay: string := "Q"
  const PaymentPaypal: string := "P"
  const PaymentVenmo: string := "V"

  /** PAYMENT_CHOICES as written: the PayPal and Venmo labels are crossed. */
  const PaymentChoicesAsWritten: Models.Choices :=
    [(PaymentCash, "Paying by Cash"), (PaymentQuickPay, "Chase Quick Pay"),
     (PaymentPaypal, "Paying by Venmo"), (PaymentVenmo, "Paying by Paypal")]

  /** PAYMENT_CHOICES with each code labelled by the method it names. */
  const PaymentChoices: Models.Choices :=
    [(PaymentCash, "Paying by Cash"), (PaymentQuickPay, "Chase Quick Pay"),
     (PaymentPaypal, "Paying by Paypal"), (PaymentVenmo, "Paying by Venmo")]

  /** As written, a PayPal registration is shown as paying by Venmo and the reverse. */
  lemma PaymentLabelsCrossed()
    ensures GetChoice(PaymentPaypal, PaymentChoicesAsWritten) == Ok("Paying by Venmo")
    ensures GetChoice(PaymentVenmo, PaymentChoicesAsWritten) == Ok("Paying by Paypal")
  {
    LabelAt(PaymentPaypal, PaymentChoicesAsWritten, 2);
    LabelAt(PaymentVenmo, PaymentChoicesAsWritten, 3);
  }

  /** With the labels uncrossed, every payment code shows its own method. */
  lemma PaymentLabelsMatchCodes()
    ensures GetChoice(PaymentCash, PaymentChoices) == Ok("Paying by Cash")
    ensures GetChoice(PaymentQuickPay, PaymentChoices) == Ok("Chase Quick Pay")
    ensures GetChoice(PaymentPaypal, PaymentChoices) == Ok("Paying by Paypal")
    ensures GetChoice(PaymentVenmo, PaymentChoices) == Ok("Paying by Venmo")
  {
    LabelAt(PaymentCash, PaymentChoices, 0);
    LabelAt(PaymentQuickPay, PaymentChoices, 1);
    LabelAt(PaymentPaypal, PaymentChoices, 2);
    LabelAt(PaymentVenmo, PaymentChoices, 3);
  }

  // ---------------------------------------------------------------------
  // ConInfo, Registration and the stored rows

  /**
   * ConInfo in the older schema, reduced to the fields the core reads:
   * registration_opens is required there, and times are instants.
   */
  datatype ConInfo = ConInfo(id: nat, registrationOpens: int, maxAttendees: nat)

  /**
   * Registration in the older schema: no convention. last_updated is a
   * required column that a caller can still leave unset on a new object.
   */
  datatype Registration = Registration(id: nat, user: Models.User, registrationDate: int,
                                       lastUpdated: Option<int>, payment: string, paymentReceived: bool)

  /**
   * Registration.save() of a new row: the database refuses a row whose
   * required last_updated column is unset with an IntegrityError.
   */
  function InsertRegistration(regs: seq<Registration>, reg: Registration): (r: Result<seq<Registration>>)
    ensures r.Err? <==> reg.lastUpdated.None?
    ensures r.Err? ==> r.error == IntegrityError
    ensures r.Ok? ==> |r.value| == |regs| + 1 && r.value[..|regs|] == regs && r.value[|regs|] == reg
  {
    if reg.lastUpdated.None? then Err(IntegrityError) else Ok(regs + [reg])
  }

  /** The stored registrations and block entries, with the next primary key each table hands out. */
  class Database {
    var registrations: seq<Registration>
    var entries: seq<Models.BlockRegistration>
    var nextRegistrationId: nat
    var nextEntryId: nat

    constructor (registrations: seq<Registration>, entries: seq<Models.BlockRegistration>,
                 nextRegistrationId: nat, nextEntryId: nat)
      ensures this.registrations == registrations && this.entries == entries
      ensures this.nextRegistrationId == nextRegistrationId && this.nextEntryId == nextEntryId
    {
      this.registrations := registrations;
      this.entries := entries;
      this.nextRegistrationId := nextRegistrationId;
      this.nextEntryId := nextEntryId;
    }
  }

  /** Registration.objects.filter(user=user): the user's registrations, in stored order. */
  function RegistrationsOfUser(user: Models.User, regs: seq<Registration>): (mine: seq<Registration>)
    ensures |mine| <= |regs|
  {
    if regs == [] then []
    else (if Models.SameUser(user, regs[0].user) then [regs[0]] else []) + RegistrationsOfUser(user, regs[1..])
  }

  /** The user's registrations are exactly the stored ones that belong to the user. */
  lemma {:induction false} RegistrationsOfUserMembers(user: Models.User, regs: seq<Registration>)
    ensures forall r :: r in RegistrationsOfUser(user, regs) <==> r in regs && Models.SameUser(user, r.user)
    ensures RegistrationsOfUser(user, regs) == [] <==>
              forall i :: 0 <= i < |regs| ==> !Models.SameUser(user, regs[i].user)
  {
    if regs != [] {
      RegistrationsOfUserMembers(user, regs[1..]);
      assert forall r :: r in regs <==> r == regs[0] || r in regs[1..];
      assert forall i :: 1 <= i < |regs| ==> regs[i] == regs[1..][i - 1];
    }
  }

  /** The entries that belong to one of the given registrations, in stored order. */
  function EntriesOf(mine: seq<Registration>, entries: seq<Models.BlockRegistration>): (items: seq<Models.BlockRegistration>)
    ensures |items| <= |entries|
    ensures mine == [] ==> items == []
  {
    if entries == [] then []
    else
      (if exists r :: r in mine && r.id == entries[0].registration then [entries[0]] else []) +
      EntriesOf(mine, entries[1..])
  }

  /** The entries found are exactly the stored entries of those registrations. */
  lemma {:induction false} EntriesOfMembers(mine: seq<Registration>, entries: seq<Models.BlockRegistration>)
    ensures forall e :: e in EntriesOf(mine, entries) <==> e in entries && exists r :: r in mine && r.id == e.registration
  {
    if entries != [] {
      EntriesOfMembers(mine, entries[1..]);
      assert forall e :: e in entries <==> e == entries[0] || e in entries[1..];
    }
  }
}
