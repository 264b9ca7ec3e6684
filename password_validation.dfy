/**
 * source/passwordValidation.py: the same rules and breach lookup as
 * source/validation.py, but every failed check prints a message. The
 * printed lines are returned as a sequence so that contracts can speak
 * about them. Its is_password_pwned is the one of source/validation.py.
 */
module PasswordValidation {
  import opened Common
  import opened Validation

  const PwnedMessage: string := "Password is pwned"

  /** The line printed for a broken rule. */
  function RuleMessage(rule: Rule): string {
    match rule
    case LengthRule => "Password too short"
    case DigitRule => "Password needs at least one digit"
    case UppercaseRule => "Password needs at least one uppercase letter"
    case LowercaseRule => "Password needs at least one lowercase letter"
    case SpecialRule => "Password needs at least one special character"
  }

  function RuleMessages(rules: seq<Rule>): seq<string> {
    seq(|rules|, i requires 0 <= i < |rules| => RuleMessage(rules[i]))
  }

  /** Everything is_password_correct prints once the lookup has answered `pwned`. */
  function Report(password: string, pwned: bool): seq<string> {
    RuleMessages(Violations(password)) + (if pwned then [PwnedMessage] else [])
  }

  /** Nothing is printed exactly when the password is accepted. */
  lemma ReportEmptyIffAccepted(password: string, pwned: bool)
    ensures Report(password, pwned) == [] <==> MeetsRules(password) && !pwned
  {
    ViolationsListBrokenRules(password);
    if Report(password, pwned) == [] {
      assert |Violations(password)| == 0;
    }
  }

  lemma RuleMessagesAppend(rules: seq<Rule>, more: seq<Rule>)
    ensures RuleMessages(rules + more) == RuleMessages(rules) + RuleMessages(more)
  {
  }

  /** Different rules print different lines, and none of them is the pwned line. */
  lemma RuleMessageInjective(a: Rule, b: Rule)
    ensures RuleMessage(a) == RuleMessage(b) ==> a == b
    ensures RuleMessage(a) != PwnedMessage
  {
  }

  lemma {:induction false} RuleMessagesInjective(v1: seq<Rule>, v2: seq<Rule>)
    requires RuleMessages(v1) == RuleMessages(v2)
    ensures v1 == v2
  {
    assert |v1| == |RuleMessages(v1)|;
    forall i | 0 <= i < |v1| ensures v1[i] == v2[i] {
      assert RuleMessages(v1)[i] == RuleMessages(v2)[i];
      RuleMessageInjective(v1[i], v2[i]);
    }
  }

  /** The last printed line is the pwned line exactly when the lookup found the password. */
  lemma ReportEndsWithPwned(password: string, pwned: bool)
    ensures var r := Report(password, pwned);
            r != [] && r[|r| - 1] == PwnedMessage <==> pwned
  {
    var r := Report(password, pwned);
    var v := Violations(password);
    if !pwned && r != [] {
      assert r[|r| - 1] == RuleMessage(v[|v| - 1]);
      RuleMessageInjective(v[|v| - 1], v[|v| - 1]);
    }
  }

  /** The printed lines tell exactly which rules were broken and whether the password was found. */
  lemma ReportDeterminesReasons(p1: string, b1: bool, p2: string, b2: bool)
    requires Report(p1, b1) == Report(p2, b2)
    ensures Violations(p1) == Violations(p2) && b1 == b2
  {
    ReportEndsWithPwned(p1, b1);
    ReportEndsWithPwned(p2, b2);
    var r := Report(p1, b1);
    var m1, m2 := RuleMessages(Violations(p1)), RuleMessages(Violations(p2));
    if b1 {
      assert m1 == (m1 + [PwnedMessage])[..|m1|] == r[..|r| - 1] == (m2 + [PwnedMessage])[..|m2|] == m2;
    } else {
      assert m1 == m1 + [] == r == m2 + [] == m2;
    }
    RuleMessagesInjective(Violations(p1), Violations(p2));
  }

  /** The rule a check lists: none when it holds. */
  function Broken(holds: bool, rule: Rule): seq<Rule> {
    if holds then [] else [rule]
  }

  /** One rule check of is_password_correct: a broken rule prints its line and clears the flag. */
  method CheckRule(holds: bool, rule: Rule, secure: bool, printed: seq<string>)
    returns (secure': bool, printed': seq<string>)
    ensures printed' == printed + RuleMessages(Broken(holds, rule))
    ensures secure' == (secure && holds)
  {
    secure', printed' := secure, printed;
    if !holds {
      printed' := printed + [RuleMessage(rule)];
      secure' := false;
    }
  }

  /** The five rule checks of is_password_correct: one line printed per broken rule, in order. */
  method CheckRules(password: string) returns (secure: bool, printed: seq<string>)
    ensures printed == RuleMessages(Violations(password))
    ensures secure <==> MeetsRules(password)
  {
    ghost var f1 := Broken(|password| >= MinLength, LengthRule);
    ghost var f2 := Broken(HasDigit(password), DigitRule);
    ghost var f3 := Broken(HasUpper(password), UppercaseRule);
    ghost var f4 := Broken(HasLower(password), LowercaseRule);
    ghost var f5 := Broken(HasSpecial(password), SpecialRule);
    secure, printed := CheckRule(|password| >= MinLength, LengthRule, true, []);
    assert printed == RuleMessages(f1);
    secure, printed := CheckRule(HasDigit(password), DigitRule, secure, printed);
    RuleMessagesAppend(f1, f2);
    secure, printed := CheckRule(HasUpper(password), UppercaseRule, secure, printed);
    RuleMessagesAppend(f1 + f2, f3);
    secure, printed := CheckRule(HasLower(password), LowercaseRule, secure, printed);
    RuleMessagesAppend(f1 + f2 + f3, f4);
    secure, printed := CheckRule(HasSpecial(password), SpecialRule, secure, printed);
    RuleMessagesAppend(f1 + f2 + f3 + f4, f5);
    assert printed == RuleMessages(f1 + f2 + f3 + f4 + f5);
    assert f1 + f2 + f3 + f4 + f5 == Violations(password);
  }

  /**
   * is_password_correct with its prints: every failed rule prints its line
   * and clears the flag, then the lookup runs once whatever the rules gave.
   * If the lookup raises, the rule messages have already been printed.
   */
  method IsPasswordCorrect(password: string, sha1Hex: string -> string, api: BreachService)
    returns (r: Result<bool, PyError>, printed: seq<string>)
    modifies api
    ensures api.requests == old(api.requests) + [HashPrefix(sha1Hex, password)]
    ensures r == PolicyVerdict(password, sha1Hex, api.respond)
    ensures var lookup := BreachLookup(HashSuffix(sha1Hex, password), api.respond(HashPrefix(sha1Hex, password)));
            printed == if lookup.Success? then Report(password, lookup.value)
                       else RuleMessages(Violations(password))
  {
    var secure;
    secure, printed := CheckRules(password);
    var pwned := IsPasswordPwned(password, sha1Hex, api);
    assert pwned == BreachLookup(HashSuffix(sha1Hex, password), api.respond(HashPrefix(sha1Hex, password)));
    if pwned.Failure? {
      return Failure(pwned.error), printed;
    }
    if pwned.value {
      printed := printed + [PwnedMessage];
      secure := false;
    }
    if !secure {
      return Success(false), printed;
    }
    return Success(true), printed;
  }
}
