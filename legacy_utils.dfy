/**
 * The older code base's helpers (wsgi/shadowcon/con/utils.py): the friendly
 * name, the lookup of a field of the one stored con, and whether
 * registration has opened.
 */
module LegacyUtils {
  import opened Wrappers
  import opened Text
  import Models
  import Utils
  import LegacyModels

  /**
   * friendly_username in the older code: "first last" as it stands, or the
   * username when that is blank. Unlike the newer helper it does not strip.
   */
  function FriendlyUsername(u: Models.User): (name: string)
    ensures IsBlank(u.firstName + " " + u.lastName) ==> name == u.username
    ensures !IsBlank(u.firstName + " " + u.lastName) ==> name == u.firstName + " " + u.lastName
  {
    var name := u.firstName + " " + u.lastName;
    StripEmptyIffBlank(name);
    if |Strip(name)| == 0 then u.username else name
  }

  /** The older name strips to the newer one, and both fall back to the username together. */
  lemma FriendlyUsernameStripsToNewer(u: Models.User)
    ensures IsBlank(u.firstName + " " + u.lastName) ==> FriendlyUsername(u) == Utils.FriendlyUsername(u)
    ensures !IsBlank(u.firstName + " " + u.lastName) ==> Strip(FriendlyUsername(u)) == Utils.FriendlyUsername(u)
  {
    StripEmptyIffBlank(u.firstName + " " + u.lastName);
  }

  /** With only a first name, the older name keeps the trailing space the newer one strips. */
  lemma FriendlyUsernameKeepsSpace(u: Models.User)
    requires IsWord(u.firstName) && u.lastName == ""
    ensures FriendlyUsername(u) == u.firstName + " "
    ensures FriendlyUsername(u) != Utils.FriendlyUsername(u)
  {
    var full := u.firstName + " ";
    assert u.firstName + " " + u.lastName == full;
    assert !IsBlank(full) by { assert !IsSpace(full[0]); }
    Utils.FriendlyUsernameFirstOnly(u);
    assert |FriendlyUsername(u)| != |Utils.FriendlyUsername(u)|;
  }

  // ---------------------------------------------------------------------
  // get_con_value

  /** The ConInfo attributes the core asks for by name. */
  datatype ConField = RegistrationOpens | MaxAttendees

  /** getattr(info, parameter) for the attributes above. */
  function Attribute(info: LegacyModels.ConInfo, parameter: ConField): int
  {
    match parameter
    case RegistrationOpens => info.registrationOpens
    case MaxAttendees => info.maxAttendees
  }

  /** What get_con_value returns: a message string in place of an error, or the attribute. */
  datatype ConValue = Message(text: string) | Value(value: int)

  const NoCon: string := "No con object found"
  const MultipleCons: string := "Multiple con objects found"

  /**
   * get_con_value: with no con or with several it returns a message string
   * rather than raising; with exactly one it returns that con's attribute.
   */
  function GetConValue(cons: seq<LegacyModels.ConInfo>, parameter: ConField): (v: ConValue)
    ensures v.Value? <==> |cons| == 1
    ensures v == Message(NoCon) <==> cons == []
    ensures v == Message(MultipleCons) <==> |cons| > 1
    ensures v.Value? ==> v.value == Attribute(cons[0], parameter)
  {
    assert NoCon != MultipleCons by { assert NoCon[0] != MultipleCons[0]; }
    if |cons| == 0 then Message(NoCon)
    else if |cons| > 1 then Message(MultipleCons)
    else Value(Attribute(cons[0], parameter))
  }

  /**
   * registration_open: open_date <= now. When get_con_value handed back a
   * message string, comparing it with a date raises TypeError (Python 2).
   */
  function RegistrationOpen(cons: seq<LegacyModels.ConInfo>, now: int): (r: Result<bool>)
    ensures r.Ok? <==> |cons| == 1
    ensures r.Err? ==> r.error == TypeError
    ensures r.Ok? ==> (r.value <==> cons[0].registrationOpens <= now)
  {
    match GetConValue(cons, RegistrationOpens)
    case Message(_) => Err(TypeError)
    case Value(openDate) => Ok(openDate <= now)
  }

  /** Once registration has opened it stays open. */
  lemma RegistrationStaysOpen(cons: seq<LegacyModels.ConInfo>, now: int, later: int)
    requires now <= later && RegistrationOpen(cons, now) == Ok(true)
    ensures RegistrationOpen(cons, later) == Ok(true)
  {
  }
}
