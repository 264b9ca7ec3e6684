/**
 * generate_password: a random password over an alphabet picked by four
 * switches, with excluded characters and an optional pattern of tags
 * (U, L, D, S) each of which forces one character of its class. The
 * positional version of passwortgenerierung.py is the core; the dictionary
 * versions of source/password_generation.py and source/passwortgenerierung.py
 * read their arguments from a criteria dictionary and then run the same code.
 * Random choices are nondeterministic choices of the verifier.
 */
module Generator {
  import opened Common

  const AsciiUppercase: string := "ABCDEFGHIJKLMNOPQRSTUVWXYZ"
  const AsciiLowercase: string := "abcdefghijklmnopqrstuvwxyz"
  const Digits: string := "0123456789"
  /** string.punctuation */
  const Punctuation: string := "!\"#$%&'()*+,-./:;<=>?@[\\]^_`{|}~"

  datatype GenError =
    | EmptyCharacterSet
    | NoValidCharForTag(tag: char)
    | InvalidTag(tag: char)
    | KeyError(key: string)

  /** The switched-on groups, concatenated in the order upper, lower, digits, punctuation. */
  function Alphabet(useUpper: bool, useLower: bool, useDigits: bool, useSpecial: bool): string {
    (if useUpper then AsciiUppercase else [])
    + (if useLower then AsciiLowercase else [])
    + (if useDigits then Digits else [])
    + (if useSpecial then Punctuation else [])
  }

  /** The characters of s that are not in exclude, in their order. */
  function Filter(s: string, exclude: string): (f: string)
    ensures forall c :: c in f <==> c in s && c !in exclude
    ensures |f| <= |s|
  {
    if s == [] then []
    else (if s[0] in exclude then [] else [s[0]]) + Filter(s[1..], exclude)
  }

  /** pattern_dict: the class of a tag, or None for a character that is not a tag. */
  function TagClass(tag: char): Option<string> {
    match tag
    case 'U' => Some(AsciiUppercase)
    case 'L' => Some(AsciiLowercase)
    case 'D' => Some(Digits)
    case 'S' => Some(Punctuation)
    case _ => None
  }

  /** The tag is known and some character of its class survives the exclusion. */
  predicate TagUsable(tag: char, exclude: string) {
    TagClass(tag).Some? && Filter(TagClass(tag).value, exclude) != []
  }

  /** The first tag of the pattern that makes the loop raise, with its reason. */
  function PatternError(pattern: string, exclude: string): Option<GenError> {
    if pattern == [] then None
    else match TagClass(pattern[0])
      case None => Some(InvalidTag(pattern[0]))
      case Some(cls) =>
        if Filter(cls, exclude) == [] then Some(NoValidCharForTag(pattern[0]))
        else PatternError(pattern[1..], exclude)
  }

  /** The pattern raises nothing exactly when every tag is usable. */
  lemma {:induction false} PatternErrorNoneIff(pattern: string, exclude: string)
    ensures PatternError(pattern, exclude) == None
        <==> forall i :: 0 <= i < |pattern| ==> TagUsable(pattern[i], exclude)
    ensures PatternError(pattern, exclude) != None
        ==> (exists i :: 0 <= i < |pattern| && !TagUsable(pattern[i], exclude)
               && (forall j :: 0 <= j < i ==> TagUsable(pattern[j], exclude))
               && PatternError(pattern, exclude)
                  == Some(if TagClass(pattern[i]).None? then InvalidTag(pattern[i]) else NoValidCharForTag(pattern[i])))
  {
    if pattern != [] {
      var tail := pattern[1..];
      PatternErrorNoneIff(tail, exclude);
      assert forall i :: 0 < i < |pattern| ==> pattern[i] == tail[i - 1];
      if TagUsable(pattern[0], exclude) && PatternError(pattern, exclude) != None {
        var i :| 0 <= i < |tail| && !TagUsable(tail[i], exclude)
            && (forall j :: 0 <= j < i ==> TagUsable(tail[j], exclude))
            && PatternError(tail, exclude)
               == Some(if TagClass(tail[i]).None? then InvalidTag(tail[i]) else NoValidCharForTag(tail[i]));
        assert !TagUsable(pattern[i + 1], exclude);
        assert forall j :: 0 <= j < i + 1 ==> TagUsable(pattern[j], exclude);
      }
    }
  }

  /**
   * The ValueError generate_password raises, if any: the empty alphabet is
   * checked first, then the pattern tag by tag. The length plays no part.
   */
  function GenerationError(useUpper: bool, useLower: bool, useDigits: bool, useSpecial: bool,
                           exclude: string, pattern: string): Option<GenError>
  {
    if Filter(Alphabet(useUpper, useLower, useDigits, useSpecial), exclude) == [] then Some(EmptyCharacterSet)
    else if pattern != [] then PatternError(pattern, exclude)
    else None
  }

  /**
   * A successful run: `draws` are the pattern's characters, one per tag from
   * its class minus the excluded characters; `fill` are the filler characters
   * from the filtered alphabet; the password is a shuffle of both (without a
   * pattern, exactly the filler).
   */
  predicate Outcome(password: string, draws: string, fill: string, length: int,
                    characters: string, exclude: string, pattern: string)
  {
    && |draws| == |pattern|
    && (forall i :: 0 <= i < |pattern| ==>
          TagClass(pattern[i]).Some? && draws[i] in Filter(TagClass(pattern[i]).value, exclude))
    && |fill| == Max(0, length - |pattern|)
    && (forall i :: 0 <= i < |fill| ==> fill[i] in characters)
    && (pattern == [] ==> password == fill)
    && multiset(password) == multiset(draws + fill)
  }

  /** random.shuffle: Fisher-Yates from the back; the contents are only permuted. */
  method Shuffle(a: array<char>)
    modifies a
    ensures multiset(a[..]) == old(multiset(a[..]))
  {
    var i := a.Length;
    while i > 1
      invariant 0 <= i <= a.Length
      invariant multiset(a[..]) == old(multiset(a[..]))
    {
      i := i - 1;
      var j :| 0 <= j <= i;
      a[i], a[j] := a[j], a[i];
    }
  }

  /** random.choice */
  method Choice(s: string) returns (c: char)
    requires s != []
    ensures c in s
  {
    assert s[0] in s;
    c :| c in s;
  }

  /** The characters of the enabled groups, built by successive `+=`, minus the excluded ones. */
  method BuildCharacters(useUpper: bool, useLower: bool, useDigits: bool, useSpecial: bool, exclude: string)
    returns (characters: string)
    ensures characters == Filter(Alphabet(useUpper, useLower, useDigits, useSpecial), exclude)
  {
    ghost var upper: string := if useUpper then AsciiUppercase else [];
    ghost var lower: string := if useLower then AsciiLowercase else [];
    ghost var digits: string := if useDigits then Digits else [];
    ghost var special: string := if useSpecial then Punctuation else [];
    characters := [];
    if useUpper { characters := characters + AsciiUppercase; }
    assert characters == upper;
    if useLower { characters := characters + AsciiLowercase; }
    assert characters == upper + lower;
    if useDigits { characters := characters + Digits; }
    assert characters == upper + lower + digits;
    if useSpecial { characters := characters + Punctuation; }
    assert characters == upper + lower + digits + special;
    if exclude != [] {
      characters := Filter(characters, exclude);
    } else {
      FilterNothing(characters);
    }
  }

  lemma {:induction false} FilterNothing(s: string)
    ensures Filter(s, []) == s
  {
    if s != [] {
      FilterNothing(s[1..]);
    }
  }

  /** The pattern loop: one character per tag from its class minus the excluded characters. */
  method DrawPattern(pattern: string, exclude: string) returns (r: Result<string, GenError>)
    ensures PatternError(pattern, exclude).Some? ==> r == Failure(PatternError(pattern, exclude).value)
    ensures PatternError(pattern, exclude).None? ==>
              r.Success? && |r.value| == |pattern|
              && forall i :: 0 <= i < |pattern| ==>
                   TagClass(pattern[i]).Some? && r.value[i] in Filter(TagClass(pattern[i]).value, exclude)
  {
    var password := [];
    for k := 0 to |pattern|
      invariant PatternError(pattern, exclude) == PatternError(pattern[k..], exclude)
      invariant |password| == k
      invariant forall i :: 0 <= i < k ==>
                  TagClass(pattern[i]).Some? && password[i] in Filter(TagClass(pattern[i]).value, exclude)
    {
      assert pattern[k..][1..] == pattern[k + 1..];
      var tag := pattern[k];
      match TagClass(tag)
      case None =>
        return Failure(InvalidTag(tag));
      case Some(cls) =>
        var validChars := Filter(cls, exclude);
        if validChars == [] {
          return Failure(NoValidCharForTag(tag));
        }
        var c := Choice(validChars);
        password := password + [c];
    }
    return Success(password);
  }

  /** random.choices(characters, k=count), and the generator over range(count): none when count <= 0. */
  method Choices(characters: string, count: int) returns (s: string)
    requires characters != []
    ensures |s| == Max(0, count)
    ensures forall i :: 0 <= i < |s| ==> s[i] in characters
  {
    s := [];
    var n := 0;
    while n < count
      invariant |s| == Max(0, n)
      invariant forall i :: 0 <= i < |s| ==> s[i] in characters
      invariant 0 <= n <= Max(0, count)
    {
      var c := Choice(characters);
      s := s + [c];
      n := n + 1;
    }
  }

  /** The pattern's characters and the filler, joined into a list of characters and shuffled. */
  method ShuffledJoin(front: string, back: string) returns (s: string)
    ensures multiset(s) == multiset(front + back)
  {
    var joined := front + back;
    var buffer := new char[|joined|](i requires 0 <= i < |joined| => joined[i]);
    assert buffer[..] == joined;
    Shuffle(buffer);
    s := buffer[..];
  }

  /** The branch of generate_password taken when a pattern is given. */
  method GenerateWithPattern(characters: string, length: int, exclude: string, pattern: string)
    returns (r: Result<string, GenError>, ghost draws: string, ghost fill: string)
    requires characters != [] && pattern != []
    ensures PatternError(pattern, exclude).Some? ==> r == Failure(PatternError(pattern, exclude).value)
    ensures PatternError(pattern, exclude).None? ==>
              r.Success? && Outcome(r.value, draws, fill, length, characters, exclude, pattern)
  {
    draws, fill := [], [];
    var drawn := DrawPattern(pattern, exclude);
    if drawn.Failure? {
      return Failure(drawn.error), draws, fill;
    }
    var extra := Choices(characters, length - |drawn.value|);
    draws, fill := drawn.value, extra;
    var password := ShuffledJoin(drawn.value, extra);
    return Success(password), draws, fill;
  }

  /** generate_password(length, use_uppercase, use_lowercase, use_digits, use_special, exclude_chars, enforce_pattern). */
  method GeneratePassword(length: int, useUpper: bool, useLower: bool, useDigits: bool, useSpecial: bool,
                          exclude: string, pattern: string)
    returns (r: Result<string, GenError>, ghost draws: string, ghost fill: string)
    ensures GenerationError(useUpper, useLower, useDigits, useSpecial, exclude, pattern).Some?
        ==> r == Failure(GenerationError(useUpper, useLower, useDigits, useSpecial, exclude, pattern).value)
    ensures GenerationError(useUpper, useLower, useDigits, useSpecial, exclude, pattern).None?
        ==> r.Success? && Outcome(r.value, draws, fill, length,
                                  Filter(Alphabet(useUpper, useLower, useDigits, useSpecial), exclude),
                                  exclude, pattern)
  {
    draws, fill := [], [];
    ghost var err := GenerationError(useUpper, useLower, useDigits, useSpecial, exclude, pattern);
    var characters := BuildCharacters(useUpper, useLower, useDigits, useSpecial, exclude);
    if characters == [] {
      assert err == Some(EmptyCharacterSet);
      return Failure(EmptyCharacterSet), draws, fill;
    }
    if pattern != [] {
      assert err == PatternError(pattern, exclude);
      r, draws, fill := GenerateWithPattern(characters, length, exclude, pattern);
      return;
    }
    assert err == None;
    var password := Choices(characters, length);
    fill := password;
    assert Outcome(password, draws, fill, length, characters, exclude, pattern);
    return Success(password), draws, fill;
  }

  /* ---------- what a successful run promises ---------- */

  /** With a pattern the password has max(length, |pattern|) characters, without one max(0, length). */
  lemma OutcomeLength(password: string, draws: string, fill: string, length: int,
                      characters: string, exclude: string, pattern: string)
    requires Outcome(password, draws, fill, length, characters, exclude, pattern)
    ensures |password| == if pattern == [] then Max(0, length) else Max(length, |pattern|)
  {
    assert |password| == |multiset(password)| == |multiset(draws + fill)| == |draws + fill|;
  }

  /** Every character of the password comes from the filter or from a tag class, never from exclude. */
  lemma OutcomeAvoidsExcluded(password: string, draws: string, fill: string, length: int,
                              flags: (bool, bool, bool, bool), exclude: string, pattern: string)
    requires Outcome(password, draws, fill, length,
                     Filter(Alphabet(flags.0, flags.1, flags.2, flags.3), exclude), exclude, pattern)
    ensures forall i :: 0 <= i < |password| ==> password[i] !in exclude
  {
    forall i | 0 <= i < |password| ensures password[i] !in exclude {
      var c := password[i];
      assert c in multiset(draws + fill);
      assert c in draws + fill;
      if c in draws {
        var k :| 0 <= k < |draws| && draws[k] == c;
      } else {
        var k :| 0 <= k < |fill| && fill[k] == c;
      }
    }
  }

  /** Without a pattern, every character is from the filtered alphabet. */
  lemma UnpatternedFromAlphabet(password: string, draws: string, fill: string, length: int,
                                characters: string, exclude: string)
    requires Outcome(password, draws, fill, length, characters, exclude, [])
    ensures forall i :: 0 <= i < |password| ==> password[i] in characters
  {
  }

  /** Some character of the password belongs to cls. */
  predicate Contains(password: string, cls: string) {
    exists k :: 0 <= k < |password| && password[k] in cls
  }

  /** The shuffle loses no tag: for every tag there is a character of its class in the password. */
  lemma EachTagRepresented(password: string, draws: string, fill: string, length: int,
                           characters: string, exclude: string, pattern: string)
    requires Outcome(password, draws, fill, length, characters, exclude, pattern)
    ensures forall i :: 0 <= i < |pattern| ==>
              TagClass(pattern[i]).Some? && Contains(password, TagClass(pattern[i]).value)
  {
    forall i | 0 <= i < |pattern|
      ensures TagClass(pattern[i]).Some? && Contains(password, TagClass(pattern[i]).value)
    {
      var c := draws[i];
      assert c in Filter(TagClass(pattern[i]).value, exclude);
      assert (draws + fill)[i] == c;
      assert c in multiset(draws + fill);
      assert c in multiset(password);
      assert c in password;
      var k :| 0 <= k < |password| && password[k] == c;
    }
  }

  /** The pattern "ULDS" yields an upper-case letter, a lower-case letter, a digit and a punctuation mark. */
  lemma UldsPatternCoversAllGroups(password: string, draws: string, fill: string, length: int,
                                   characters: string, exclude: string)
    requires Outcome(password, draws, fill, length, characters, exclude, "ULDS")
    ensures Contains(password, AsciiUppercase) && Contains(password, AsciiLowercase)
    ensures Contains(password, Digits) && Contains(password, Punctuation)
  {
    EachTagRepresented(password, draws, fill, length, characters, exclude, "ULDS");
    UldsClasses(password);
  }

  lemma UldsClasses(password: string)
    requires forall i :: 0 <= i < |"ULDS"| ==> TagClass("ULDS"[i]).Some? && Contains(password, TagClass("ULDS"[i]).value)
    ensures Contains(password, AsciiUppercase) && Contains(password, AsciiLowercase)
    ensures Contains(password, Digits) && Contains(password, Punctuation)
  {
    var p := "ULDS";
    assert Contains(password, TagClass(p[0]).value) && Contains(password, TagClass(p[1]).value);
    assert Contains(password, TagClass(p[2]).value) && Contains(password, TagClass(p[3]).value);
  }

  /* ---------- when it raises ---------- */

  /** The alphabet is empty after filtering exactly when every enabled character is excluded. */
  lemma EmptyCharacterSetIff(useUpper: bool, useLower: bool, useDigits: bool, useSpecial: bool, exclude: string)
    ensures GenerationError(useUpper, useLower, useDigits, useSpecial, exclude, []) == Some(EmptyCharacterSet)
        <==> forall c :: c in Alphabet(useUpper, useLower, useDigits, useSpecial) ==> c in exclude
  {
    var f := Filter(Alphabet(useUpper, useLower, useDigits, useSpecial), exclude);
    if f != [] {
      assert f[0] in f;
    }
  }

  /** All switches off is an EmptyCharacterSet error, whatever the pattern. */
  lemma NoGroupsRaises(exclude: string, pattern: string)
    ensures GenerationError(false, false, false, false, exclude, pattern) == Some(EmptyCharacterSet)
  {
  }

  /** The first tag that is unknown or fully excluded decides the error. */
  lemma FirstUnusableTagRaises(useUpper: bool, useLower: bool, useDigits: bool, useSpecial: bool,
                               exclude: string, pattern: string, i: int)
    requires Filter(Alphabet(useUpper, useLower, useDigits, useSpecial), exclude) != []
    requires 0 <= i < |pattern| && !TagUsable(pattern[i], exclude)
    requires forall j :: 0 <= j < i ==> TagUsable(pattern[j], exclude)
    ensures GenerationError(useUpper, useLower, useDigits, useSpecial, exclude, pattern)
         == Some(if TagClass(pattern[i]).None? then InvalidTag(pattern[i]) else NoValidCharForTag(pattern[i]))
  {
    PatternErrorNoneIff(pattern, exclude);
    var k :| 0 <= k < |pattern| && !TagUsable(pattern[k], exclude)
        && (forall j :: 0 <= j < k ==> TagUsable(pattern[j], exclude))
        && PatternError(pattern, exclude)
           == Some(if TagClass(pattern[k]).None? then InvalidTag(pattern[k]) else NoValidCharForTag(pattern[k]));
    assert k == i;
  }

  /**
   * Tags draw from their own class, not from the enabled groups: with only
   * digits switched on, the pattern "U" raises nothing.
   */
  lemma TagIgnoresSwitches(exclude: string)
    requires '0' !in exclude && 'A' !in exclude
    ensures GenerationError(false, false, true, false, exclude, "U") == None
  {
    var digitsOnly := Alphabet(false, false, true, false);
    assert digitsOnly[0] == '0';
    assert '0' in Filter(digitsOnly, exclude);
    var upper := TagClass('U').value;
    assert upper[0] == 'A';
    assert 'A' in Filter(upper, exclude);
    PatternErrorNoneIff("U", exclude);
  }

  /* ---------- the criteria dictionary ---------- */

  /** The criteria dictionary; None stands for a missing key. */
  datatype Criteria = Criteria(
    length: Option<int>,
    useUppercase: Option<bool>,
    useLowercase: Option<bool>,
    useDigits: Option<bool>,
    useSpecial: Option<bool>,
    excludeChars: Option<string>,
    enforcePattern: Option<string>)

  /** The first mandatory key that is missing, in the order the function reads them. */
  function MissingKey(criteria: Criteria): Option<string> {
    if criteria.length.None? then Some("length")
    else if criteria.useUppercase.None? then Some("use_uppercase")
    else if criteria.useLowercase.None? then Some("use_lowercase")
    else if criteria.useDigits.None? then Some("use_digits")
    else if criteria.useSpecial.None? then Some("use_special")
    else None
  }

  function GetOr(o: Option<string>, default: string): string {
    if o.Some? then o.value else default
  }

  /**
   * generate_password(criteria): the five mandatory keys are read with
   * indexing (KeyError when absent), the other two with `.get(key, '')`.
   */
  method GenerateFromCriteria(criteria: Criteria)
    returns (r: Result<string, GenError>, ghost draws: string, ghost fill: string)
    ensures MissingKey(criteria).Some? ==> r == Failure(KeyError(MissingKey(criteria).value))
    ensures MissingKey(criteria).None? ==>
      var exclude, pattern := GetOr(criteria.excludeChars, ""), GetOr(criteria.enforcePattern, "");
      var flags := (criteria.useUppercase.value, criteria.useLowercase.value,
                    criteria.useDigits.value, criteria.useSpecial.value);
      match GenerationError(flags.0, flags.1, flags.2, flags.3, exclude, pattern)
      case Some(e) => r == Failure(e)
      case None => r.Success? && Outcome(r.value, draws, fill, criteria.length.value,
                                         Filter(Alphabet(flags.0, flags.1, flags.2, flags.3), exclude),
                                         exclude, pattern)
  {
    draws, fill := [], [];
    if criteria.length.None? { return Failure(KeyError("length")), draws, fill; }
    if criteria.useUppercase.None? { return Failure(KeyError("use_uppercase")), draws, fill; }
    if criteria.useLowercase.None? { return Failure(KeyError("use_lowercase")), draws, fill; }
    if criteria.useDigits.None? { return Failure(KeyError("use_digits")), draws, fill; }
    if criteria.useSpecial.None? { return Failure(KeyError("use_special")), draws, fill; }
    var exclude := GetOr(criteria.excludeChars, "");
    var pattern := GetOr(criteria.enforcePattern, "");
    r, draws, fill := GeneratePassword(criteria.length.value, criteria.useUppercase.value,
                                       criteria.useLowercase.value, criteria.useDigits.value,
                                       criteria.useSpecial.value, exclude, pattern);
  }
}
