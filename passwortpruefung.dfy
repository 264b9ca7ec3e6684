/**
 * passwortpruefung.py: the rules are checked one after the other and the
 * first broken rule ends the check with its message; only a password that
 * passes every rule is looked up in the breach database.
 */
module Passwortpruefung {
  import opened Common
  import opened Validation

  const PwnedMessage: string := "password is pwned"

  /** The line printed before returning False on a broken rule. */
  function ShortMessage(rule: Rule): string {
    match rule
    case LengthRule => "pw too short"
    case DigitRule => "idk"
    case UppercaseRule => "pw needs uppercase letter"
    case LowercaseRule => "pw needs lowercase letter"
    case SpecialRule => "pw needs special characters"
  }

  /** The verdict with early returns: the breach lookup only decides once the rules pass. */
  function ShortCircuitVerdict(password: string, sha1Hex: string -> string,
                               respond: string -> Option<string>): Result<bool, PyError>
  {
    if Violations(password) != [] then Success(false)
    else match BreachLookup(HashSuffix(sha1Hex, password), respond(HashPrefix(sha1Hex, password)))
      case Failure(e) => Failure(e)
      case Success(pwned) => Success(!pwned)
  }

  /** What is printed: the first broken rule's line, or the pwned line, or nothing. */
  function ShortCircuitReport(password: string, sha1Hex: string -> string,
                              respond: string -> Option<string>): seq<string>
  {
    var v := Violations(password);
    if v != [] then [ShortMessage(v[0])]
    else if ShortCircuitVerdict(password, sha1Hex, respond) == Success(false) then [PwnedMessage]
    else []
  }

  /**
   * is_password_correct with early returns. The range API is contacted only
   * when every rule holds.
   */
  method IsPasswordCorrect(password: string, sha1Hex: string -> string, api: BreachService)
    returns (r: Result<bool, PyError>, printed: seq<string>)
    modifies api
    ensures api.requests == old(api.requests) + (if MeetsRules(password) then [HashPrefix(sha1Hex, password)] else [])
    ensures r == ShortCircuitVerdict(password, sha1Hex, api.respond)
    ensures printed == ShortCircuitReport(password, sha1Hex, api.respond)
  {
    ViolationsListBrokenRules(password);
    if |password| < MinLength {
      return Success(false), [ShortMessage(LengthRule)];
    }
    if !HasDigit(password) {
      return Success(false), [ShortMessage(DigitRule)];
    }
    if !HasUpper(password) {
      return Success(false), [ShortMessage(UppercaseRule)];
    }
    if !HasLower(password) {
      return Success(false), [ShortMessage(LowercaseRule)];
    }
    if !HasSpecial(password) {
      return Success(false), [ShortMessage(SpecialRule)];
    }
    var pwned := IsPasswordPwned(password, sha1Hex, api);
    if pwned.Failure? {
      return Failure(pwned.error), [];
    }
    if pwned.value {
      return Success(false), [PwnedMessage];
    }
    return Success(true), [];
  }

  /** The first message names the first rule in checking order that the password breaks. */
  lemma FirstMessageNamesFirstBrokenRule(password: string, sha1Hex: string -> string,
                                         respond: string -> Option<string>)
    requires !MeetsRules(password)
    ensures ShortCircuitReport(password, sha1Hex, respond)
         == [ShortMessage(if |password| < MinLength then LengthRule
                          else if !HasDigit(password) then DigitRule
                          else if !HasUpper(password) then UppercaseRule
                          else if !HasLower(password) then LowercaseRule
                          else SpecialRule)]
  {
    ViolationsListBrokenRules(password);
  }

  /** Whenever the full check of source/validation.py answers, the early-return check answers the same. */
  lemma AgreesWithPolicy(password: string, sha1Hex: string -> string, respond: string -> Option<string>)
    requires PolicyVerdict(password, sha1Hex, respond).Success?
    ensures ShortCircuitVerdict(password, sha1Hex, respond) == PolicyVerdict(password, sha1Hex, respond)
  {
    ViolationsListBrokenRules(password);
  }

  /** The two differ only where the full check raises and the early return never looks. */
  lemma DiffersOnlyWhenPolicyRaises(password: string, sha1Hex: string -> string, respond: string -> Option<string>)
    ensures ShortCircuitVerdict(password, sha1Hex, respond) != PolicyVerdict(password, sha1Hex, respond)
       <==> PolicyVerdict(password, sha1Hex, respond).Failure? && !MeetsRules(password)
  {
    ViolationsListBrokenRules(password);
  }

  /**
   * A response line without a colon makes the full check raise, while the
   * early-return check rejects a short password without looking at it.
   */
  lemma MalformedResponseOnlyBreaksFullCheck(password: string, sha1Hex: string -> string,
                                             respond: string -> Option<string>, line: string)
    requires |password| < MinLength
    requires line != [] && ':' !in line
    requires forall j :: 0 <= j < |line| ==> !IsLineBreak(line[j])
    requires respond(HashPrefix(sha1Hex, password)) == Some(line)
    ensures PolicyVerdict(password, sha1Hex, respond) == Failure(UnpackError(1))
    ensures ShortCircuitVerdict(password, sha1Hex, respond) == Success(false)
  {
    SplitLinesSingle(line);
    var k := FirstIndexWhere(line, c => c == ':');
    assert k == |line|;
    assert Split(line, ':') == [line];
  }
}
