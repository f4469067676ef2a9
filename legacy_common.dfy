/**
 * The older code base's view mixins (wsgi/shadowcon/con/views/common.py):
 * each dispatch either renders a refusal page or lets the view proceed.
 */
module LegacyCommon {
  import opened Wrappers
  import opened Responses
  import Models
  import LegacyModels
  import LegacyUtils

  const NotOpenTemplate: string := "con/registration_not_open.html"
  const NotStaffTemplate: string := "con/not_staff.html"
  const WaitListTemplate: string := "con/registration_wait_list.html"
  const NotFoundTemplate: string := "con/registration_not_found.html"

  /**
   * RegistrationOpenMixin.dispatch: the not-open page until registration has
   * opened, then the view proceeds. The open check is the older
   * registration_open, whose TypeError for a missing or ambiguous con
   * propagates.
   */
  function RegistrationOpenDispatch(cons: seq<LegacyModels.ConInfo>, now: int): (r: Result<Response>)
    ensures r.Err? <==> |cons| != 1
    ensures r.Ok? ==> (r.value == Render(NotOpenTemplate) <==> now < cons[0].registrationOpens)
    ensures r.Ok? ==> (r.value == Proceed <==> cons[0].registrationOpens <= now)
  {
    match LegacyUtils.RegistrationOpen(cons, now)
    case Err(e) => Err(e)
    case Ok(isOpen) => if !isOpen then Ok(Render(NotOpenTemplate)) else Ok(Proceed)
  }

  /** IsStaffMixin.dispatch: the not-staff page unless the user is staff or a superuser. */
  function IsStaffDispatch(user: Models.User): (r: Response)
    ensures r == Render(NotStaffTemplate) <==> !user.isStaff && !user.isSuperuser
    ensures r == Proceed <==> user.isStaff || user.isSuperuser
  {
    if !user.isStaff && !user.isSuperuser then Render(NotStaffTemplate) else Proceed
  }

  // ---------------------------------------------------------------------
  // NotOnWaitingListMixin

  /** The first position of the user's registration in `regs`, if the user has one. */
  function Position(user: Models.User, regs: seq<LegacyModels.Registration>): (p: Option<nat>)
    ensures p.None? <==> forall i :: 0 <= i < |regs| ==> !Models.SameUser(user, regs[i].user)
    ensures p.Some? ==> p.value < |regs| && Models.SameUser(user, regs[p.value].user)
    ensures p.Some? ==> forall j :: 0 <= j < p.value ==> !Models.SameUser(user, regs[j].user)
  {
    if regs == [] then None
    else if Models.SameUser(user, regs[0].user) then Some(0)
    else
      match Position(user, regs[1..])
      case None => None
      case Some(k) => Some(k + 1)
  }

  /**
   * i >= get_con_value('max_attendees') under Python 2, where a number
   * compares below any string: with a message in place of the limit no
   * position reaches it.
   */
  predicate PastLimit(i: nat, limit: LegacyUtils.ConValue)
  {
    match limit
    case Message(_) => false
    case Value(m) => i >= m
  }

  /**
   * The answer of NotOnWaitingListMixin.dispatch for `regs` in registration
   * date order: not found without a registration of the user, the waiting
   * list when the user's first position reaches the limit, else proceed.
   */
  function WaitingListDispatch(user: Models.User, regs: seq<LegacyModels.Registration>,
                               cons: seq<LegacyModels.ConInfo>): Response
  {
    match Position(user, regs)
    case None => Render(NotFoundTemplate)
    case Some(i) =>
      if PastLimit(i, LegacyUtils.GetConValue(cons, LegacyUtils.MaxAttendees)) then Render(WaitListTemplate)
      else Proceed
  }

  /**
   * NotOnWaitingListMixin.dispatch: scans the registrations in date order
   * and stops at the first one of the user.
   */
  method NotOnWaitingList(user: Models.User, regs: seq<LegacyModels.Registration>, cons: seq<LegacyModels.ConInfo>)
    returns (r: Response)
    ensures r == WaitingListDispatch(user, regs, cons)
  {
    var found := false;
    var i := 0;
    while i < |regs|
      invariant 0 <= i <= |regs| && !found
      invariant forall j :: 0 <= j < i ==> !Models.SameUser(user, regs[j].user)
    {
      var entry := regs[i];
      if Models.SameUser(user, entry.user) {
        found := true;
        assert Position(user, regs) == Some(i) by {
          var p := Position(user, regs);
          assert p.Some? && !(p.value < i) && !(i < p.value);
        }
        if PastLimit(i, LegacyUtils.GetConValue(cons, LegacyUtils.MaxAttendees)) {
          return Render(WaitListTemplate);
        }
        break;
      }
      i := i + 1;
    }
    if !found {
      return Render(NotFoundTemplate);
    }
    return Proceed;
  }

  /** The not-found page is shown exactly when no registration is the user's. */
  lemma NotFoundIffUnregistered(user: Models.User, regs: seq<LegacyModels.Registration>,
                                cons: seq<LegacyModels.ConInfo>)
    ensures WaitingListDispatch(user, regs, cons) == Render(NotFoundTemplate) <==>
              forall i :: 0 <= i < |regs| ==> !Models.SameUser(user, regs[i].user)
  {
    assert NotFoundTemplate != WaitListTemplate by { assert NotFoundTemplate[17] != WaitListTemplate[17]; }
  }

  /**
   * With one con, a user whose first registration is at position i is
   * wait-listed exactly when i >= max_attendees, and otherwise proceeds.
   */
  lemma WaitListRule(user: Models.User, regs: seq<LegacyModels.Registration>,
                     cons: seq<LegacyModels.ConInfo>, i: nat)
    requires i < |regs| && Models.SameUser(user, regs[i].user)
    requires forall j :: 0 <= j < i ==> !Models.SameUser(user, regs[j].user)
    requires |cons| == 1
    ensures WaitingListDispatch(user, regs, cons) ==
              if i >= cons[0].maxAttendees then Render(WaitListTemplate) else Proceed
  {
    var p := Position(user, regs);
    assert p.Some? && !(p.value < i) && !(i < p.value);
  }

  /** With max_attendees 0 every registered user is wait-listed. */
  lemma ZeroLimitWaitListsAll(user: Models.User, regs: seq<LegacyModels.Registration>,
                              cons: seq<LegacyModels.ConInfo>, i: nat)
    requires i < |regs| && Models.SameUser(user, regs[i].user)
    requires |cons| == 1 && cons[0].maxAttendees == 0
    ensures WaitingListDispatch(user, regs, cons) == Render(WaitListTemplate)
  {
    assert Position(user, regs).Some?;
  }

  /** Without exactly one con the limit is a message string and nobody is wait-listed. */
  lemma NoConNoWaitList(user: Models.User, regs: seq<LegacyModels.Registration>,
                        cons: seq<LegacyModels.ConInfo>)
    requires |cons| != 1
    ensures WaitingListDispatch(user, regs, cons) != Render(WaitListTemplate)
  {
    assert NotFoundTemplate != WaitListTemplate by { assert NotFoundTemplate[17] != WaitListTemplate[17]; }
  }

  /** Only the user's first registration matters: what follows it is never looked at. */
  lemma OnlyFirstEntryMatters(user: Models.User, regs: seq<LegacyModels.Registration>,
                              cons: seq<LegacyModels.ConInfo>, i: nat, later: seq<LegacyModels.Registration>)
    requires i < |regs| && Models.SameUser(user, regs[i].user)
    requires forall j :: 0 <= j < i ==> !Models.SameUser(user, regs[j].user)
    ensures WaitingListDispatch(user, regs[..i + 1] + later, cons) == WaitingListDispatch(user, regs, cons)
  {
    var other := regs[..i + 1] + later;
    assert other[i] == regs[i];
    assert forall j :: 0 <= j < i ==> other[j] == regs[j];
    var p, q := Position(user, other), Position(user, regs);
    assert p.Some? && !(p.value < i) && !(i < p.value);
    assert q.Some? && !(q.value < i) && !(i < q.value);
  }
}
