/**
 * source/validation.py: the composition rules for a password, the
 * k-anonymity breach lookup against the "Have I Been Pwned" range API, and
 * the e-mail pattern. SHA-1 is a parameter (the upper-cased hex digest is
 * computed from it); the HTTP call is the BreachService below.
 */
module Validation {
  import opened Common

  /* ---------- character classes ---------- */

  predicate IsAsciiDigit(c: char) { '0' <= c <= '9' }
  predicate IsAsciiUpper(c: char) { 'A' <= c <= 'Z' }
  predicate IsAsciiLower(c: char) { 'a' <= c <= 'z' }
  predicate IsAsciiLetter(c: char) { IsAsciiUpper(c) || IsAsciiLower(c) }

  /** The class [_!@#$%^&*(),.?":{}|<>-] of the special-character rule. */
  const SpecialCharacters: string := "_!@#$%^&*(),.?\":{}|<>-"

  predicate HasDigit(s: string) { exists i :: 0 <= i < |s| && IsAsciiDigit(s[i]) }
  predicate HasUpper(s: string) { exists i :: 0 <= i < |s| && IsAsciiUpper(s[i]) }
  predicate HasLower(s: string) { exists i :: 0 <= i < |s| && IsAsciiLower(s[i]) }
  predicate HasSpecial(s: string) { exists i :: 0 <= i < |s| && s[i] in SpecialCharacters }

  const MinLength: nat := 8

  /** The five composition rules, in the order the source checks them. */
  datatype Rule = LengthRule | DigitRule | UppercaseRule | LowercaseRule | SpecialRule

  predicate Satisfies(password: string, rule: Rule) {
    match rule
    case LengthRule => |password| >= MinLength
    case DigitRule => HasDigit(password)
    case UppercaseRule => HasUpper(password)
    case LowercaseRule => HasLower(password)
    case SpecialRule => HasSpecial(password)
  }

  /** The rules the password breaks, in the order the source checks them. */
  function Violations(password: string): seq<Rule> {
    (if |password| < MinLength then [LengthRule] else [])
    + (if HasDigit(password) then [] else [DigitRule])
    + (if HasUpper(password) then [] else [UppercaseRule])
    + (if HasLower(password) then [] else [LowercaseRule])
    + (if HasSpecial(password) then [] else [SpecialRule])
  }

  /** The composition part of is_password_correct. */
  predicate MeetsRules(password: string) {
    |password| >= MinLength && HasDigit(password) && HasUpper(password)
    && HasLower(password) && HasSpecial(password)
  }

  /** A rule is listed exactly when it is broken; no rule is listed twice. */
  lemma ViolationsListBrokenRules(password: string)
    ensures Violations(password) == [] <==> MeetsRules(password)
    ensures forall r :: r in Violations(password) <==> !Satisfies(password, r)
    ensures forall i, j :: 0 <= i < j < |Violations(password)| ==> Violations(password)[i] != Violations(password)[j]
  {
  }

  /* The literals of the unit tests each break exactly the rule they are named after. */

  lemma ShortPasswordBreaksLength()
    ensures Violations("Short1@") == [LengthRule]
  {
    assert IsAsciiDigit("Short1@"[5]) && IsAsciiUpper("Short1@"[0]);
    assert IsAsciiLower("Short1@"[1]) && "Short1@"[6] in SpecialCharacters;
  }

  lemma NoDigitBreaksDigit()
    ensures Violations("NoDigit!@") == [DigitRule]
  {
    var p := "NoDigit!@";
    assert IsAsciiUpper(p[0]) && IsAsciiLower(p[1]) && p[7] in SpecialCharacters;
    assert forall i :: 0 <= i < |p| ==> !IsAsciiDigit(p[i]);
  }

  lemma NoUpperBreaksUppercase()
    ensures Violations("noupper1@") == [UppercaseRule]
  {
    var p := "noupper1@";
    assert IsAsciiDigit(p[7]) && IsAsciiLower(p[0]) && p[8] in SpecialCharacters;
    assert forall i :: 0 <= i < |p| ==> !IsAsciiUpper(p[i]);
  }

  lemma NoLowerBreaksLowercase()
    ensures Violations("NOLOWER1@") == [LowercaseRule]
  {
    var p := "NOLOWER1@";
    assert IsAsciiDigit(p[7]) && IsAsciiUpper(p[0]) && p[8] in SpecialCharacters;
    assert forall i :: 0 <= i < |p| ==> !IsAsciiLower(p[i]);
  }

  lemma NoSpecialBreaksSpecial()
    ensures Violations("NoSpecial1") == [SpecialRule]
  {
    var p := "NoSpecial1";
    assert IsAsciiDigit(p[9]) && IsAsciiUpper(p[0]) && IsAsciiLower(p[1]);
    assert forall i :: 0 <= i < |p| ==> p[i] !in SpecialCharacters;
  }

  lemma ValidPasswordMeetsRules()
    ensures MeetsRules("Valid1@Password")
  {
    var p := "Valid1@Password";
    assert IsAsciiDigit(p[5]) && IsAsciiUpper(p[0]) && IsAsciiLower(p[1]) && p[6] in SpecialCharacters;
  }

  /* ---------- str.splitlines and str.split ---------- */

  /** The line boundaries of Python's str.splitlines. */
  predicate IsLineBreak(c: char) {
    var n := c as int;
    n == 0x0A || n == 0x0D || n == 0x0B || n == 0x0C || n == 0x1C || n == 0x1D
    || n == 0x1E || n == 0x85 || n == 0x2028 || n == 0x2029
  }

  function FirstIndexWhere(s: string, p: char -> bool): (k: nat)
    ensures k <= |s|
    ensures forall j :: 0 <= j < k ==> !p(s[j])
    ensures k < |s| ==> p(s[k])
  {
    if s == [] || p(s[0]) then 0 else 1 + FirstIndexWhere(s[1..], p)
  }

  /** str.splitlines(): "\r\n" is one boundary, and no empty line follows a final boundary. */
  function SplitLines(s: string): (lines: seq<string>)
    ensures forall i, j :: 0 <= i < |lines| && 0 <= j < |lines[i]| ==> !IsLineBreak(lines[i][j])
    ensures s == [] <==> lines == []
    decreases |s|
  {
    if s == [] then []
    else
      var k := FirstIndexWhere(s, IsLineBreak);
      if k == |s| then [s]
      else
        var skip := if s[k] == '\r' && k + 1 < |s| && s[k + 1] == '\n' then 2 else 1;
        [s[..k]] + SplitLines(s[k + skip..])
  }

  lemma SplitLinesSingle(s: string)
    requires s != [] && forall j :: 0 <= j < |s| ==> !IsLineBreak(s[j])
    ensures SplitLines(s) == [s]
  {
  }

  /** str.split(sep) for a one-character separator. */
  function Split(s: string, sep: char): (fields: seq<string>)
    ensures |fields| >= 1
    ensures forall i :: 0 <= i < |fields| ==> sep !in fields[i]
    decreases |s|
  {
    var k := FirstIndexWhere(s, c => c == sep);
    if k == |s| then [s] else [s[..k]] + Split(s[k + 1..], sep)
  }

  function Join(fields: seq<string>, sep: char): string
    requires |fields| >= 1
  {
    if |fields| == 1 then fields[0] else fields[0] + [sep] + Join(fields[1..], sep)
  }

  /** Splitting loses nothing: joining the fields with the separator gives the string back. */
  lemma {:induction false} JoinSplit(s: string, sep: char)
    ensures Join(Split(s, sep), sep) == s
    decreases |s|
  {
    var k := FirstIndexWhere(s, c => c == sep);
    var fields := Split(s, sep);
    if k < |s| {
      var rest := Split(s[k + 1..], sep);
      assert fields == [s[..k]] + rest;
      assert fields[1..] == rest;
      assert Join(fields, sep) == s[..k] + [sep] + Join(rest, sep);
      JoinSplit(s[k + 1..], sep);
      assert s == s[..k] + [sep] + s[k + 1..];
    } else {
      assert fields == [s];
    }
  }

  lemma SplitTwoFields(a: string, b: string, sep: char)
    requires sep !in a && sep !in b
    ensures Split(a + [sep] + b, sep) == [a, b]
  {
    var s := a + [sep] + b;
    var k := FirstIndexWhere(s, c => c == sep);
    assert s[|a|] == sep;
    assert forall j :: 0 <= j < |a| ==> s[j] == a[j] && s[j] != sep;
    assert k == |a|;
    assert s[..k] == a;
    assert s[k + 1..] == b;
    assert FirstIndexWhere(b, c => c == sep) == |b|;
  }

  /* ---------- breach lookup ---------- */

  /**
   * str.upper() on a hex digest: no lower-case letter is left, each one
   * becomes the same letter in upper case, and nothing else changes.
   */
  function AsciiUpper(s: string): (u: string)
    ensures |u| == |s|
    ensures forall i :: 0 <= i < |u| ==> !IsAsciiLower(u[i])
    ensures forall i :: 0 <= i < |s| && !IsAsciiLower(s[i]) ==> u[i] == s[i]
    ensures forall i :: 0 <= i < |s| && IsAsciiLower(s[i]) ==>
              IsAsciiUpper(u[i]) && u[i] as int - 'A' as int == s[i] as int - 'a' as int
  {
    seq(|s|, i requires 0 <= i < |s| => if IsAsciiLower(s[i]) then (s[i] as int - 32) as char else s[i])
  }

  const PrefixLength: nat := 5

  /** digest[:5] and digest[5:]. */
  function SplitDigest(digest: string): (parts: (string, string))
    ensures parts.0 + parts.1 == digest
    ensures |parts.0| == Min(PrefixLength, |digest|)
  {
    var n := Min(PrefixLength, |digest|);
    (digest[..n], digest[n..])
  }

  /** The digest string the check works on: the upper-cased SHA-1 hex digest. */
  function UpperDigest(sha1Hex: string -> string, password: string): string {
    AsciiUpper(sha1Hex(password))
  }

  function HashPrefix(sha1Hex: string -> string, password: string): string {
    SplitDigest(UpperDigest(sha1Hex, password)).0
  }

  function HashSuffix(sha1Hex: string -> string, password: string): string {
    SplitDigest(UpperDigest(sha1Hex, password)).1
  }

  /** Upper-casing twice is upper-casing once. */
  lemma AsciiUpperIdempotent(s: string)
    ensures AsciiUpper(AsciiUpper(s)) == AsciiUpper(s)
  {
  }

  /** The characters of an upper-cased hex digest: digits and 'A' to 'F'. */
  predicate IsUpperHexDigit(c: char) { IsAsciiDigit(c) || 'A' <= c <= 'F' }

  /** Upper-casing a hex digest leaves only digits and 'A' to 'F'. */
  lemma AsciiUpperOfHex(s: string)
    requires forall j :: 0 <= j < |s| ==> IsHexDigit(s[j])
    ensures forall j :: 0 <= j < |AsciiUpper(s)| ==> IsUpperHexDigit(AsciiUpper(s)[j])
  {
    var u := AsciiUpper(s);
    forall j | 0 <= j < |u| ensures IsUpperHexDigit(u[j]) {
      if IsAsciiLower(s[j]) {
        assert u[j] as int - 'A' as int == s[j] as int - 'a' as int;
      }
    }
  }

  /** The prefix sent and the suffix compared hold no lower-case letter, whatever SHA-1 gives. */
  lemma DigestPartsUpperCase(sha1Hex: string -> string, password: string)
    ensures forall j :: 0 <= j < |HashPrefix(sha1Hex, password)| ==> !IsAsciiLower(HashPrefix(sha1Hex, password)[j])
    ensures forall j :: 0 <= j < |HashSuffix(sha1Hex, password)| ==> !IsAsciiLower(HashSuffix(sha1Hex, password)[j])
  {
    var digest := UpperDigest(sha1Hex, password);
    var n := Min(PrefixLength, |digest|);
    assert HashPrefix(sha1Hex, password) == digest[..n];
    assert HashSuffix(sha1Hex, password) == digest[n..];
    forall j | 0 <= j < |digest[n..]| ensures !IsAsciiLower(digest[n..][j]) {
      assert digest[n..][j] == digest[n + j];
    }
  }

  /** Dropping a prefix keeps every remaining character upper-case hex. */
  lemma DropKeepsUpperHex(s: string, n: nat)
    requires n <= |s|
    requires forall j :: 0 <= j < |s| ==> IsUpperHexDigit(s[j])
    ensures forall j :: 0 <= j < |s[n..]| ==> IsUpperHexDigit(s[n..][j])
  {
    forall j | 0 <= j < |s[n..]| ensures IsUpperHexDigit(s[n..][j]) {
      assert s[n..][j] == s[n + j];
    }
  }

  /** For a hex digest, the suffix compared holds only digits and 'A' to 'F'. */
  lemma HashSuffixUpperHex(sha1Hex: string -> string, password: string)
    requires forall j :: 0 <= j < |sha1Hex(password)| ==> IsHexDigit(sha1Hex(password)[j])
    ensures forall j :: 0 <= j < |HashSuffix(sha1Hex, password)| ==> IsUpperHexDigit(HashSuffix(sha1Hex, password)[j])
  {
    var digest := UpperDigest(sha1Hex, password);
    AsciiUpperOfHex(sha1Hex(password));
    var n := Min(PrefixLength, |digest|);
    DropKeepsUpperHex(digest, n);
  }

  /** Unpacking `returned_suffix, _` fails unless the line has exactly two fields. */
  datatype PyError = UnpackError(fieldCount: nat)

  predicate WellFormedLine(line: string) { |Split(line, ':')| == 2 }

  function FirstField(line: string): string { Split(line, ':')[0] }

  /** The for-loop over the response lines: the first match returns true, a malformed line raises. */
  function ScanLines(lines: seq<string>, suffix: string): Result<bool, PyError>
  {
    if lines == [] then Success(false)
    else if !WellFormedLine(lines[0]) then Failure(UnpackError(|Split(lines[0], ':')|))
    else if FirstField(lines[0]) == suffix then Success(true)
    else ScanLines(lines[1..], suffix)
  }

  /** What is_password_pwned returns (or raises) for a given API response. */
  function BreachLookup(suffix: string, response: Option<string>): (r: Result<bool, PyError>)
    ensures response == None ==> r == Success(false)
    ensures response == Some("") ==> r == Success(false)
  {
    match response
    case None => Success(false)
    case Some(text) => ScanLines(SplitLines(text), suffix)
  }

  /** With only well-formed lines, the result is true iff some line's first field is the suffix. */
  lemma {:induction false} ScanWellFormed(lines: seq<string>, suffix: string)
    requires forall i :: 0 <= i < |lines| ==> WellFormedLine(lines[i])
    ensures ScanLines(lines, suffix)
         == Success(exists i :: 0 <= i < |lines| && FirstField(lines[i]) == suffix)
  {
    if lines != [] {
      ScanWellFormed(lines[1..], suffix);
      if FirstField(lines[0]) != suffix {
        assert (exists i :: 0 <= i < |lines| && FirstField(lines[i]) == suffix)
           <==> (exists i :: 0 <= i < |lines[1..]| && FirstField(lines[1..][i]) == suffix) by {
          forall i | 0 < i < |lines| ensures lines[i] == lines[1..][i - 1] { }
        }
      }
    }
  }

  /** A line the scan passes over: well formed, and its first field is not the suffix. */
  predicate PassesOver(line: string, suffix: string) {
    WellFormedLine(line) && FirstField(line) != suffix
  }

  /** Line i is malformed and every line before it is passed over. */
  predicate RaisesAt(lines: seq<string>, suffix: string, i: int) {
    0 <= i < |lines| && !WellFormedLine(lines[i])
    && forall j :: 0 <= j < i ==> PassesOver(lines[j], suffix)
  }

  /** The lookup raises exactly when a malformed line comes before any matching line. */
  lemma {:induction false} ScanRaisesIff(lines: seq<string>, suffix: string)
    ensures ScanLines(lines, suffix).Failure? <==> exists i :: RaisesAt(lines, suffix, i)
  {
    if lines == [] {
    } else if !WellFormedLine(lines[0]) {
      assert RaisesAt(lines, suffix, 0);
    } else if FirstField(lines[0]) == suffix {
      assert !PassesOver(lines[0], suffix);
      assert forall i :: !RaisesAt(lines, suffix, i);
    } else {
      var tail := lines[1..];
      ScanRaisesIff(tail, suffix);
      if ScanLines(lines, suffix).Failure? {
        var i :| RaisesAt(tail, suffix, i);
        RaisesAtShift(lines, suffix, i);
      }
      if exists i :: RaisesAt(lines, suffix, i) {
        var i :| RaisesAt(lines, suffix, i);
        RaisesAtShift(lines, suffix, i - 1);
      }
    }
  }

  lemma RaisesAtShift(lines: seq<string>, suffix: string, i: int)
    requires lines != [] && PassesOver(lines[0], suffix)
    ensures RaisesAt(lines[1..], suffix, i) <==> RaisesAt(lines, suffix, i + 1)
  {
    var tail := lines[1..];
    if RaisesAt(tail, suffix, i) {
      forall j | 0 <= j < i + 1 ensures PassesOver(lines[j], suffix) {
        if j > 0 { assert lines[j] == tail[j - 1]; }
      }
    }
    if RaisesAt(lines, suffix, i + 1) {
      forall j | 0 <= j < i ensures PassesOver(tail[j], suffix) {
        assert tail[j] == lines[j + 1];
      }
    }
  }

  /** The remote range API. Each call is logged, so a contract can say what was sent. */
  class BreachService {
    const respond: string -> Option<string>
    var requests: seq<string>

    constructor (respond: string -> Option<string>)
      ensures this.respond == respond && requests == []
    {
      this.respond := respond;
      requests := [];
    }

    /** request_api: the prefix is the only thing sent; None stands for a failed request. */
    method RequestApi(prefix: string) returns (r: Option<string>)
      modifies this
      ensures r == respond(prefix)
      ensures requests == old(requests) + [prefix]
    {
      r := respond(prefix);
      requests := requests + [prefix];
    }
  }

  /** is_password_pwned: split the digest, send the prefix, scan the lines for the suffix. */
  method IsPasswordPwned(password: string, sha1Hex: string -> string, api: BreachService)
    returns (r: Result<bool, PyError>)
    modifies api
    ensures api.requests == old(api.requests) + [HashPrefix(sha1Hex, password)]
    ensures r == BreachLookup(HashSuffix(sha1Hex, password), api.respond(HashPrefix(sha1Hex, password)))
  {
    var digest := AsciiUpper(sha1Hex(password));
    var n := Min(PrefixLength, |digest|);
    var prefix := digest[..n];
    var suffix := digest[n..];
    var result := api.RequestApi(prefix);
    if result.None? {
      return Success(false);
    }
    var lines := SplitLines(result.value);
    var i := 0;
    while i < |lines|
      invariant 0 <= i <= |lines|
      invariant ScanLines(lines, suffix) == ScanLines(lines[i..], suffix)
    {
      assert lines[i..][1..] == lines[i + 1..];
      var fields := Split(lines[i], ':');
      if |fields| != 2 {
        return Failure(UnpackError(|fields|));
      }
      if fields[0] == suffix {
        return Success(true);
      }
      i := i + 1;
    }
    return Success(false);
  }

  predicate IsHexDigit(c: char) { IsAsciiDigit(c) || 'a' <= c <= 'f' || 'A' <= c <= 'F' }

  /** A one-line response whose first field is the suffix reports a breach. */
  lemma MatchingLineIsBreach(suffix: string, count: string)
    requires ':' !in suffix && ':' !in count
    requires forall j :: 0 <= j < |suffix| ==> !IsLineBreak(suffix[j])
    requires forall j :: 0 <= j < |count| ==> !IsLineBreak(count[j])
    ensures BreachLookup(suffix, Some(suffix + [':'] + count)) == Success(true)
  {
    var line := suffix + [':'] + count;
    forall j | 0 <= j < |line| ensures !IsLineBreak(line[j]) {
      if j < |suffix| { assert line[j] == suffix[j]; }
      else if j > |suffix| { assert line[j] == count[j - |suffix| - 1]; }
    }
    SplitLinesSingle(line);
    SplitTwoFields(suffix, count, ':');
  }

  /**
   * When the range API lists the password's suffix (as in "SUFFIX:count"),
   * the password is reported as breached.
   */
  lemma ListedSuffixIsBreach(password: string, sha1Hex: string -> string,
                             respond: string -> Option<string>, count: string)
    requires forall j :: 0 <= j < |sha1Hex(password)| ==> IsHexDigit(sha1Hex(password)[j])
    requires forall j :: 0 <= j < |count| ==> IsAsciiDigit(count[j])
    requires respond(HashPrefix(sha1Hex, password)) == Some(HashSuffix(sha1Hex, password) + [':'] + count)
    ensures BreachLookup(HashSuffix(sha1Hex, password), respond(HashPrefix(sha1Hex, password)))
         == Success(true)
  {
    var suffix := HashSuffix(sha1Hex, password);
    HashSuffixUpperHex(sha1Hex, password);
    MatchingLineIsBreach(suffix, count);
  }

  /** What is_password_correct of source/validation.py returns: all rules and not breached. */
  function PolicyVerdict(password: string, sha1Hex: string -> string,
                         respond: string -> Option<string>): Result<bool, PyError>
  {
    match BreachLookup(HashSuffix(sha1Hex, password), respond(HashPrefix(sha1Hex, password)))
    case Failure(e) => Failure(e)
    case Success(pwned) => Success(MeetsRules(password) && !pwned)
  }

  /**
   * is_password_correct: every rule clears one flag; the breach check runs
   * once whatever the rules gave.
   */
  method IsPasswordCorrect(password: string, sha1Hex: string -> string, api: BreachService)
    returns (r: Result<bool, PyError>)
    modifies api
    ensures api.requests == old(api.requests) + [HashPrefix(sha1Hex, password)]
    ensures r == PolicyVerdict(password, sha1Hex, api.respond)
  {
    var secure := true;
    if |password| < MinLength { secure := false; }
    if !HasDigit(password) { secure := false; }
    if !HasUpper(password) { secure := false; }
    if !HasLower(password) { secure := false; }
    if !HasSpecial(password) { secure := false; }
    var pwned := IsPasswordPwned(password, sha1Hex, api);
    if pwned.Failure? {
      return Failure(pwned.error);
    }
    if pwned.value { secure := false; }
    if !secure {
      return Success(false);
    }
    return Success(true);
  }

  /** A password is accepted iff it breaks no rule and the lookup finds it clean. */
  lemma PolicyVerdictTrueIff(password: string, sha1Hex: string -> string, respond: string -> Option<string>)
    ensures PolicyVerdict(password, sha1Hex, respond) == Success(true)
       <==> Violations(password) == []
            && BreachLookup(HashSuffix(sha1Hex, password), respond(HashPrefix(sha1Hex, password))) == Success(false)
  {
    ViolationsListBrokenRules(password);
  }

  /** An unreachable API counts as "not breached": the check fails open. */
  lemma FailOpen(password: string, sha1Hex: string -> string, respond: string -> Option<string>)
    requires respond(HashPrefix(sha1Hex, password)) == None
    ensures PolicyVerdict(password, sha1Hex, respond) == Success(MeetsRules(password))
  {
  }

  /* ---------- e-mail pattern ---------- */

  /** \w restricted to ASCII. */
  predicate IsWordChar(c: char) { IsAsciiLetter(c) || IsAsciiDigit(c) || c == '_' }

  predicate InLocalClass(c: char) { IsAsciiLetter(c) || IsAsciiDigit(c) || c in "._%+-" }
  predicate InDomainClass(c: char) { IsAsciiLetter(c) || IsAsciiDigit(c) || c in ".-" }
  predicate InTldClass(c: char) { IsAsciiLetter(c) || c == '|' }

  /** \b at position k of s. */
  predicate WordBoundaryAt(s: string, k: int)
    requires 0 <= k <= |s|
  {
    (k > 0 && IsWordChar(s[k - 1])) != (k < |s| && IsWordChar(s[k]))
  }

  /**
   * One way for \b[A-Za-z0-9._%+-]+@[A-Za-z0-9.-]+\.[A-Z|a-z]{2,}\b to match
   * s[..k]: '@' at i, the '.' before the top-level part at j.
   */
  predicate MailMatch(s: string, i: int, j: int, k: int) {
    && 0 < i < j < k <= |s|
    && WordBoundaryAt(s, 0)
    && (forall a :: 0 <= a < i ==> InLocalClass(s[a]))
    && s[i] == '@'
    && i + 1 < j
    && (forall a :: i < a < j ==> InDomainClass(s[a]))
    && s[j] == '.'
    && j + 3 <= k
    && (forall a :: j < a < k ==> InTldClass(s[a]))
    && WordBoundaryAt(s, k)
  }

  /** is_mail_correct: re.match anchors at the start only, so any matching prefix suffices. */
  predicate IsMailCorrect(mail: string) {
    exists i, j, k | 0 <= i <= |mail| && 0 <= j <= |mail| && 0 <= k <= |mail| :: MailMatch(mail, i, j, k)
  }

  /** An accepted address starts with a word character, has an '@' and at least six characters. */
  lemma MailNecessary(mail: string)
    requires IsMailCorrect(mail)
    ensures |mail| >= 6 && IsWordChar(mail[0]) && '@' in mail
  {
    var i, j, k :| 0 <= i <= |mail| && 0 <= j <= |mail| && 0 <= k <= |mail| && MailMatch(mail, i, j, k);
    assert mail[i] == '@';
  }

  /** Text after the boundary is ignored: appending text that starts with a non-word character keeps a match. */
  lemma MailTrailingTextIgnored(mail: string, tail: string)
    requires IsMailCorrect(mail)
    requires tail == [] || !IsWordChar(tail[0])
    ensures IsMailCorrect(mail + tail)
  {
    var i, j, k :| 0 <= i <= |mail| && 0 <= j <= |mail| && 0 <= k <= |mail| && MailMatch(mail, i, j, k);
    var s := mail + tail;
    assert forall a :: 0 <= a < |mail| ==> s[a] == mail[a];
    if k == |mail| && tail != [] {
      assert s[k] == tail[0];
    }
    assert MailMatch(s, i, j, k);
  }

  lemma MailAcceptsShortAddress()
    ensures IsMailCorrect("u@d.co")
  {
    assert MailMatch("u@d.co", 1, 3, 6);
  }

  lemma MailAcceptsDottedLocalPart()
    ensures IsMailCorrect("user.name@domain.co")
  {
    assert MailMatch("user.name@domain.co", 9, 16, 19);
  }

  lemma MailRejectsMissingAt()
    ensures !IsMailCorrect("plainaddress")
  {
    var p := "plainaddress";
    forall i, j, k | 0 <= i <= |p| && 0 <= j <= |p| && 0 <= k <= |p| ensures !MailMatch(p, i, j, k) {
      if 0 < i < |p| { assert p[i] != '@'; }
    }
  }

  lemma MailRejectsMissingLocalPart()
    ensures !IsMailCorrect("@missingusername.com")
  {
    assert !WordBoundaryAt("@missingusername.com", 0);
  }

  lemma MailRejectsOneLetterTopLevel()
    ensures !IsMailCorrect("username@domain.c")
  {
    var c := "username@domain.c";
    assert forall j :: 0 <= j < |c| && c[j] == '.' ==> j == 15;
  }

  /** Addresses that a disabled test (one kept inside a string literal) lists as invalid, yet the pattern accepts. */
  lemma MailAcceptsDoubleDot()
    ensures IsMailCorrect("username@domain..com")
  {
    assert MailMatch("username@domain..com", 8, 16, 20);
  }

  lemma MailAcceptsLeadingHyphenDomain()
    ensures IsMailCorrect("username@-domain.com")
  {
    assert MailMatch("username@-domain.com", 8, 16, 20);
  }

  lemma MailAcceptsTrailingDot()
    ensures IsMailCorrect("username@domain.com.")
  {
    assert MailMatch("username@domain.com.", 8, 15, 19);
  }
}
