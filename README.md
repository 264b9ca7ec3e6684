# Python-PasswordManager core in Dafny

This project models the algorithmic core of a terminal password manager and proves properties of that model. The manager is a curses program that keeps accounts and their saved passwords in `data.json`, checks new passwords against a composition policy and the "Have I Been Pwned" range API, and generates random passwords. It also has a separate module that encrypts a dictionary into a password-protected vault file.

Modules, one per part of the program:

- `Common` (`common.dfy`): `Option`, `Result`, `byte`, `Min`, `Max`.
- `Vault` (`vault.dfy`): the vault module `verschluesseln.py`.
  - PKCS#7 padding on 16-byte blocks is written out (RFC 5652 section 6.3).
  - AES-CFB-128 is written out (NIST SP 800-38A section 6.3), with the AES block function and PBKDF2-HMAC-SHA256 as function parameters.
  - Also modelled: `encrypt_data`, `decrypt_data`, and the `salt ++ iv ++ ciphertext` framing of save and load.
- `Validation` (`validation.dfy`): `source/validation.py`.
  - The five composition rules of `is_password_correct`.
  - The breach lookup of `is_password_pwned`: an upper-cased SHA-1 digest, a 5-character prefix sent to the API, the suffix matched against the `suffix:count` lines, and a missing response read as "not breached".
  - The e-mail regex of `is_mail_correct`, as an existential decomposition.
  - The range API is a `BreachService` object that logs every prefix it is sent.
- `PasswordValidation` (`password_validation.dfy`): `source/passwordValidation.py`. It is the same check with a printed line per failed rule; the printed lines are returned.
- `Passwortpruefung` (`passwortpruefung.dfy`): `passwortpruefung.py`. The rules are checked in order, the first failure returns, and the lookup runs only when all rules pass.
- `Generator` (`generator.dfy`): `generate_password`.
  - The positional version of `passwortgenerierung.py` is the core. The criteria-dictionary versions of `source/password_generation.py` and `source/passwortgenerierung.py` run the same code.
  - The alphabet is built with `+=` and the excluded characters are filtered out.
  - The pattern loop draws one character per tag, the remaining length is filled, and the result is shuffled in place (Fisher–Yates on an `array`).
  - Random choices are nondeterministic choices.
- `Store` (`store.dfy`): the `data.json` table once the JSON I/O is stripped.
  - The table is a `DataFile` object whose `accounts` map the operations update in place.
  - The operations are `safe_new_password_data`, `delete_password`, `safe_changed_data` and `safe_register_data`.
- `KeyInput` (`key_input.dfy`): the two keyboard loops of `source/password_manager_framework.py`, which `source/password_manager.py` repeats.
  - `choice_function` repaints the menu highlight in an `array`.
  - `input_function` is a line editor; a `while` loop over the sequence of key codes `getch` returns.
- `Forms` (`forms.dfy`): the flag logic of the `add_new_password` and `signIn` screens. Each is a loop over (menu item, typed line) events.

Copies whose code is identical are modelled once. The table below cites every copy's lines.

Behaviour of the code worth stating up front:

- `is_password_correct` returns one boolean, not a set of violated rules.
- A failed API call is read as "not breached" (fail-open), not as a third outcome.
- Breach suffixes are compared exactly, with `==`, not case-insensitively.
- `generate_password` raises no error when the pattern is longer than `length`; the result is just longer.
- Pattern tags draw from their own class minus the excluded characters, not from the enabled alphabet.
- The vault is written straight to its path, with no temporary file and rename.
- The cipher is AES (128-bit blocks) with a 256-bit key.
- The vault module is not used by the `data.json` store.

## Model

| member | source | states |
|---|---|---|
| `Vault.Pad` | verschluesseln.py:28-29 | appends n bytes of value n (1 ≤ n ≤ 16): the data is a prefix and the length is the least multiple of 16 above the data's length |
| `Vault.Unpad` | verschluesseln.py:47-48 | succeeds exactly on a non-empty whole number of blocks ending in n ≥ 1, n ≤ 16 copies of n; the result is a proper prefix |
| `Vault.UnpadIsInverseOfPad` | verschluesseln.py:28-48 | `Unpad(p) == Some(d)` if and only if `p == Pad(d)` |
| `Vault.CfbEncrypt` | verschluesseln.py:30-32 | CFB-128 encryption keeps the length |
| `Vault.CfbDecrypt` | verschluesseln.py:44-46 | CFB-128 decryption keeps the length |
| `Vault.CfbRoundTrip` | verschluesseln.py:30-46 | CFB decryption undoes CFB encryption for every block function, key and IV |
| `Vault.EncryptData` | verschluesseln.py:19-33 | a bad key size or IV size fails with its error; otherwise the ciphertext is a whole number of blocks, 1 to 16 bytes longer than the data |
| `Vault.DecryptData` | verschluesseln.py:35-49 | a bad key or IV size fails with its error; otherwise it fails with InvalidPadding exactly when the decrypted bytes are not validly padded |
| `Vault.DecryptEncrypt` | verschluesseln.py:19-49 | `decrypt_data(encrypt_data(d, k, iv), k, iv) == d` whatever the AES block function |
| `Vault.RaggedCiphertextRejected` | verschluesseln.py:46-48 | a ciphertext that is not a whole number of blocks fails with InvalidPadding |
| `Vault.SplitFrame` | verschluesseln.py:89-92 | reading 16 bytes, 16 bytes and the rest loses nothing, and short files give short parts |
| `Vault.SplitFrameOfJoin` | verschluesseln.py:76-92 | the loader's split of `salt ++ iv ++ body` gives back salt, iv and body |
| `Vault.SaveEncryptedDict` | verschluesseln.py:62-76 | the bytes written start with the salt and IV, and the rest is `encrypt_data` of the encoded dictionary under the key derived from (password, salt) with 100000 PBKDF2 iterations |
| `Vault.LoadEncryptedDict` | verschluesseln.py:89-103 | a file shorter than 32 bytes fails with the IV-size error |
| `Vault.LoadAfterSave` | verschluesseln.py:51-103 | load after save with the same password gives the dictionary back, with the key derived from the stored salt |
| `Validation.ViolationsListBrokenRules` | source/validation.py:33-43 | a rule is listed exactly when the password breaks it, no rule twice; the list is empty exactly when all five rules hold |
| `Validation.ShortPasswordBreaksLength` | source/validation.py:34-35 | "Short1@" breaks the length rule and only that rule |
| `Validation.NoDigitBreaksDigit` | source/validation.py:36-37 | "NoDigit!@" breaks the digit rule and only that rule |
| `Validation.NoUpperBreaksUppercase` | source/validation.py:38-39 | "noupper1@" breaks the upper-case rule and only that rule |
| `Validation.NoLowerBreaksLowercase` | source/validation.py:40-41 | "NOLOWER1@" breaks the lower-case rule and only that rule |
| `Validation.NoSpecialBreaksSpecial` | source/validation.py:42-43 | "NoSpecial1" breaks the special-character rule and only that rule |
| `Validation.ValidPasswordMeetsRules` | tests/test_validation.py:8-9 | "Valid1@Password" meets all five rules |
| `Validation.SplitLines` | source/validation.py:64 | `splitlines` yields no line containing a line boundary, and no lines exactly for the empty text |
| `Validation.Split` | source/validation.py:64 | `split(':')` yields at least one field and no field contains the separator |
| `Validation.JoinSplit` | source/validation.py:64 | joining the fields with the separator gives the line back |
| `Validation.SplitTwoFields` | source/validation.py:64-65 | a line `a:b` without other colons splits into exactly `[a, b]` |
| `Validation.AsciiUpper` | source/validation.py:57 | `upper()` keeps the length, leaves no ASCII lower-case letter, turns each one into the same letter in upper case, and changes nothing else |
| `Validation.AsciiUpperIdempotent` | source/validation.py:57 | upper-casing an upper-cased digest changes nothing |
| `Validation.AsciiUpperOfHex` | source/validation.py:57 | an upper-cased hex digest holds only digits and 'A' to 'F' |
| `Validation.DigestPartsUpperCase` | source/validation.py:57-59 | the prefix sent to the API and the suffix compared hold no lower-case letter, whatever SHA-1 returns |
| `Validation.HashSuffixUpperHex` | source/validation.py:57-59 | for a hex digest, the suffix compared holds only digits and 'A' to 'F' |
| `Validation.SplitDigest` | source/validation.py:58-59 | prefix ++ suffix is the digest and the prefix has min(5, length) characters |
| `Validation.BreachLookup` | source/validation.py:61-68 | a missing response and an empty response both give "not breached" |
| `Validation.ScanWellFormed` | source/validation.py:64-68 | over `suffix:count` lines, the result is true iff some line's first field equals the suffix exactly |
| `Validation.ScanRaisesIff` | source/validation.py:64-65 | the lookup raises iff a line without exactly two fields comes before any matching line |
| `Validation.BreachService.constructor` | source/validation.py:70-85 | the service starts with no requests logged |
| `Validation.BreachService.RequestApi` | source/validation.py:70-85 | the response is the service's answer to the prefix, and the prefix is appended to the request log |
| `Validation.IsPasswordPwned` | source/validation.py:50-68 | exactly one request, carrying only the 5-character prefix; the loop's answer equals the lookup of the suffix in the response; the same code is at source/passwordValidation.py:47-65 and passwortpruefung.py:26-38 |
| `Validation.MatchingLineIsBreach` | source/validation.py:64-67 | a response line `suffix:count` reports a breach |
| `Validation.ListedSuffixIsBreach` | source/validation.py:57-67 | when the API answer for the password's prefix lists its upper-cased suffix with a count, the password is breached |
| `Validation.IsPasswordCorrect` | source/validation.py:18-48 | every rule is evaluated and the lookup runs exactly once whatever the rules gave; the result is "all rules hold and not breached", or the lookup's exception |
| `Validation.PolicyVerdictTrueIff` | source/validation.py:33-48 | accepted iff no rule is broken and the lookup answers "not breached" |
| `Validation.FailOpen` | source/validation.py:61-63 | with no API response the verdict is the composition rules alone |
| `Validation.MailNecessary` | source/validation.py:15-16 | an accepted address starts with a word character, holds '@' and has at least six characters |
| `Validation.MailTrailingTextIgnored` | source/validation.py:15-16 | `match` anchors only at the start: text after the match's boundary does not matter |
| `Validation.MailAcceptsShortAddress` | tests/test_password_validation.py:18 | "u@d.co" is accepted |
| `Validation.MailAcceptsDottedLocalPart` | tests/test_password_validation.py:13 | "user.name@domain.co" is accepted |
| `Validation.MailRejectsMissingAt` | source/validation.py:15-16 | "plainaddress" is rejected |
| `Validation.MailRejectsMissingLocalPart` | tests/test_password_validation.py:28 | "@missingusername.com" is rejected |
| `Validation.MailRejectsOneLetterTopLevel` | tests/test_password_validation.py:31 | "username@domain.c" is rejected |
| `Validation.MailAcceptsDoubleDot` | tests/test_password_validation.py:30 | "username@domain..com" is accepted by the pattern, although a disabled test (inside a string literal) lists it as invalid |
| `Validation.MailAcceptsLeadingHyphenDomain` | tests/test_password_validation.py:33 | "username@-domain.com" is accepted, although a disabled test (inside a string literal) lists it as invalid |
| `Validation.MailAcceptsTrailingDot` | tests/test_password_validation.py:34 | "username@domain.com." is accepted, although a disabled test (inside a string literal) lists it as invalid |
| `PasswordValidation.IsPasswordCorrect` | source/passwordValidation.py:10-46 | the lookup runs exactly once; the result equals the verdict of source/validation.py; the printed lines are the broken rules' messages in order, then the pwned line if breached |
| `PasswordValidation.CheckRule` | source/passwordValidation.py:26-28 | one rule check: a broken rule appends its line to the printed lines and clears the secure flag; a rule that holds changes nothing |
| `PasswordValidation.CheckRules` | source/passwordValidation.py:25-40 | the five rule checks print one line per broken rule, in the source's order, and leave the flag set exactly when all rules hold |
| `PasswordValidation.RuleMessagesAppend` | source/passwordValidation.py:26-40 | the lines printed for two runs of checks one after the other are the lines of the first followed by those of the second |
| `PasswordValidation.ReportEmptyIffAccepted` | source/passwordValidation.py:25-46 | nothing is printed exactly when the password is accepted |
| `PasswordValidation.RuleMessageInjective` | source/passwordValidation.py:26-43 | different rules print different lines, none of them the pwned line |
| `PasswordValidation.RuleMessagesInjective` | source/passwordValidation.py:26-40 | the rule lines printed determine the broken rules |
| `PasswordValidation.ReportEndsWithPwned` | source/passwordValidation.py:41-43 | the last line printed is the pwned line exactly when the lookup found the password |
| `PasswordValidation.ReportDeterminesReasons` | source/passwordValidation.py:26-43 | two runs that print the same lines broke the same rules and had the same lookup answer |
| `Passwortpruefung.IsPasswordCorrect` | passwortpruefung.py:6-25 | the API is contacted only when all five rules hold; the result and the single printed line follow the first failure in checking order |
| `Passwortpruefung.FirstMessageNamesFirstBrokenRule` | passwortpruefung.py:7-21 | the message printed names the first rule, in the order length, digit, upper, lower, special, that the password breaks |
| `Passwortpruefung.AgreesWithPolicy` | passwortpruefung.py:6-25 | whenever the full check answers, the early-return check gives the same answer |
| `Passwortpruefung.DiffersOnlyWhenPolicyRaises` | passwortpruefung.py:22 | the two checks differ exactly when the full check raises on a password that breaks a rule |
| `Passwortpruefung.MalformedResponseOnlyBreaksFullCheck` | passwortpruefung.py:7-9 | a colon-less response line raises in the full check, while the early-return check rejects a short password without looking |
| `Generator.Filter` | passwortgenerierung.py:29-30 | a character survives exactly when it was in the alphabet and is not excluded |
| `Generator.BuildCharacters` | passwortgenerierung.py:19-30 | the characters are the enabled groups, in order, minus the excluded ones |
| `Generator.PatternErrorNoneIff` | passwortgenerierung.py:39-47 | the pattern raises nothing iff every tag is known and keeps a character after exclusion; otherwise the first bad tag decides the error |
| `Generator.Choice` | passwortgenerierung.py:45 | `random.choice` returns a member of the sequence |
| `Generator.DrawPattern` | passwortgenerierung.py:36-47 | one character per tag from the tag's class minus the excluded characters, or the error of the first bad tag |
| `Generator.Choices` | passwortgenerierung.py:49-50 | max(0, k) characters, all from the alphabet |
| `Generator.ShuffledJoin` | passwortgenerierung.py:50-53 | the joined password holds exactly the pattern characters and the filler characters, in some order |
| `Generator.GenerateWithPattern` | passwortgenerierung.py:36-53 | a pattern letter outside U, L, D, S or one whose class is emptied by the exclusions raises the pattern error; otherwise the password is one pattern draw per letter plus filler from the character pool, shuffled |
| `Generator.Shuffle` | passwortgenerierung.py:52 | the shuffle only permutes the contents |
| `Generator.GeneratePassword` | passwortgenerierung.py:4-55 | the empty alphabet is checked first, then the pattern; on success the password is a permutation of the tag draws and the filler draws |
| `Generator.OutcomeLength` | passwortgenerierung.py:49-55 | the length is max(length, pattern length) with a pattern and max(0, length) without |
| `Generator.OutcomeAvoidsExcluded` | passwortgenerierung.py:29-50 | no character of the password is excluded, on either path |
| `Generator.UnpatternedFromAlphabet` | passwortgenerierung.py:55 | without a pattern every character is from the filtered alphabet |
| `Generator.EachTagRepresented` | passwortgenerierung.py:39-52 | after the shuffle, every tag still has a character of its class in the password |
| `Generator.UldsPatternCoversAllGroups` | tests/test_password_generation.py:38-44 | the pattern "ULDS" gives an upper-case letter, a lower-case letter, a digit and a punctuation mark |
| `Generator.EmptyCharacterSetIff` | passwortgenerierung.py:29-33 | the empty-alphabet error is raised exactly when every enabled character is excluded |
| `Generator.NoGroupsRaises` | passwortgenerierung.py:19-33 | all four switches off raises the empty-alphabet error, whatever the pattern |
| `Generator.FirstUnusableTagRaises` | passwortgenerierung.py:39-47 | the first unknown or fully excluded tag decides which error is raised |
| `Generator.TagIgnoresSwitches` | source/password_generation.py:51-57 | tags draw from their own class, so with only digits enabled the pattern "U" raises nothing |
| `Generator.GenerateFromCriteria` | source/password_generation.py:9-68 | a missing mandatory key raises KeyError, in reading order; otherwise the result is that of the positional function; the same code is at source/passwortgenerierung.py:9-67 |
| `Store.RemoveFirstDropsFirstOccurrence` | source/password.py:215 | `list.remove` drops exactly the first occurrence and keeps the order of the rest |
| `Store.AppendIfAbsentExtends` | source/data.py:177-180 | the old history is a prefix of the new one, the password is in it, and it grows only if the password was new |
| `Store.AddEntryAppends` | source/password.py:132-133 | the name goes to the end of the list, even when already listed; the new data overrides the map and every other entry is kept |
| `Store.DeleteEntryRemoves` | source/password.py:214-215 | succeeds iff the name is in the map and in the list; then the entry is gone, the first listed occurrence is removed and nothing else changes |
| `Store.RenameEntryMoves` | source/data.py:163-182 | the old name leaves the map and the list, the new name is appended, and the new entry holds only name, password, url, text, history and the date of change |
| `Store.EditEntryTouchesOnlyItsFields` | source/data.py:183-196 | only url, text, password, history and date of change are overwritten; the old history is kept as a prefix, and the list and other entries are unchanged |
| `Store.AddExistingNameBreaksConsistency` | source/password.py:132-133 | adding under a name that already has an entry lists that name twice |
| `Store.DuplicateThenDeleteLeavesDanglingName` | source/password_manager.py:49-60 | then deleting it leaves a listed name with no entry, which the password list screen looks up |
| `Store.AddEntryCheckedKeepsConsistency` | source/password_manager.py:49-60 | adding without listing a name twice keeps every listed name backed by one entry |
| `Store.DeleteEntryKeepsConsistency` | source/password.py:214-215 | deletion keeps the list and the map in step |
| `Store.RenameEntryKeepsConsistency` | source/data.py:165-182 | a rename to a free name (or to the same name) keeps the list and the map in step |
| `Store.EditEntryKeepsConsistency` | source/data.py:184-196 | an edit keeps the list and the map in step |
| `Store.DataFile.constructor` | source/data.py:161-162 | the table holds the accounts loaded |
| `Store.DataFile.SafeNewPasswordData` | source/password.py:118-135 | an unknown mail raises KeyError and changes nothing; otherwise only that account changes, as `AddEntry` says; the same code is at source/password_manager.py:518-535 |
| `Store.DataFile.DeletePassword` | source/password.py:199-217 | KeyError before ValueError, and nothing changes on an error; otherwise only that account changes, as `DeleteEntry` says; the same code is at source/password_manager.py:537-555 |
| `Store.DataFile.SafeChangedData` | source/data.py:141-199 | the rename or edit path, with the history copied in a loop; nothing changes on an error, and otherwise only that account changes; the same code is at source/password_manager.py:745-803 |
| `Store.DataFile.SafeRegisterData` | source/password_manager.py:805-833 | the mail gets a fresh record with the hashed master password and no entries |
| `Store.DataFile.SafeRegisterDataWithoutImport` | source/data.py:203-231 | raises NameError for `hash_password`, which data.py does not import |
| `Store.RegisterKeepsOtherAccounts` | source/password_manager.py:819-831 | registering replaces the record of that mail only; every other account is untouched |
| `KeyInput.ChoiceFunction` | source/password_manager_framework.py:63-98 | Down/Up move the index by one within the menu and repaint the two items; Enter clears `go`; every other key changes nothing; the same code is at source/password_manager.py:307-342 |
| `KeyInput.MoveKeepsSingleHighlight` | source/password_manager_framework.py:81-91 | exactly one item, the one the index names, stays highlighted, and the index moves at most one step |
| `KeyInput.UpUndoesDown` | source/password_manager_framework.py:84-91 | Down then Up restores the index and the colours |
| `KeyInput.EdgesHold` | source/password_manager_framework.py:84-91 | at the first and last item the arrows change nothing |
| `KeyInput.Typed` | source/password_manager_framework.py:135-174 | the line ends at the first Enter read, and its length is bounded by the keys read before it |
| `KeyInput.EditKeepsCursorInText` | source/password_manager_framework.py:142-173 | the cursor stays within the text; typing appends, Backspace drops the last character only when the cursor is not at the start, and the arrows keep the text |
| `KeyInput.TypedKeysEcho` | source/password_manager_framework.py:163-173 | typed keys followed by Enter return exactly their characters |
| `KeyInput.KeysAfterEnterUnread` | source/password_manager_framework.py:138-141 | keys after the Enter that ends the line are never read |
| `KeyInput.EditKey` | source/password_manager_framework.py:142-173 | one key edits the line the same way whether or not the field is a password field |
| `KeyInput.InputFunction` | source/password_manager_framework.py:127-174 | the loop returns the line and the number of keys read, and never lets the cursor column leave the field; the same code is at source/password_manager.py:370-417 |
| `KeyInput.TypedAfterEdits` | source/password_manager_framework.py:138-173 | keys other than Enter and Escape only edit the line |
| `KeyInput.EditsTyped` | source/password_manager_framework.py:163-173 | typed keys append their characters and advance the cursor |
| `KeyInput.EditsCursor` | source/password_manager_framework.py:149-160 | the arrow keys never change the text |
| `KeyInput.NavigationNeverInserts` | source/password_manager_framework.py:149-173 | after moving the cursor back, typing still appends at the end |
| `KeyInput.BackspaceDropsLastTyped` | source/password_manager_framework.py:142-148 | Backspace after typing drops the last character typed |
| `KeyInput.HelloExample` | tests/test_password_manager.py:237-240 | h, e, l, l, o, Enter returns "hello" |
| `KeyInput.BackspaceExample` | tests/test_password_manager.py:247-250 | h, e, l, Backspace, o, Enter returns "heo" |
| `KeyInput.NavigationExample` | tests/test_password_manager.py:252-255 | h, e, l, Left, Left, o, Enter returns "helo", not the test's "hello" |
| `Forms.AddNewPasswordScreen` | source/password.py:54-116 | the screen's loop ends as the as-written form function says: Back, Save with the fields, UnboundLocalError, or waiting; the same code is at source/password_manager.py:419-516; what a save needs is stated of that function by `Forms.AsWrittenSavedOnlyWithName` and `Forms.AsWrittenSavedAfterPassingPassword` |
| `Forms.StickyFlagSavesWeakPassword` | source/password.py:113-116 | as written, a strong password and then a weak one is saved with the weak one; the corrected form keeps waiting |
| `Forms.SavedPasswordPasses` | source/password.py:66 | with the corrected flag, Save stores only a password that passes the check |
| `Forms.SavedOnlyWithName` | source/password.py:66 | in the corrected loop, Save stores only after a name has been typed |
| `Forms.AsWrittenSavedOnlyWithName` | source/password.py:66-108 | in the loop as written, Save stores only after a name has been typed, or when the form already had one |
| `Forms.AsWrittenSavedAfterPassingPassword` | source/password.py:66-116 | in the loop as written, Save stores only after some typed password passed the check, or when the flag was already up; the password stored need not be that one |
| `Forms.FixAgreesOnPassingPasswords` | source/password.py:113-116 | when every password typed passes, the correction changes nothing |
| `Forms.NewEntry` | source/password.py:68-82 | a new entry's history is its password, and its first-access and last-change dates are the time of saving |
| `Forms.SaveKeepsAccountSound` | source/password.py:66-83 | with both corrections, saving keeps the account's list and map in step and stores a passing password |
| `Forms.SignInScreen` | source/password_manager_framework.py:304-349 | the sign-in loop ends as the as-written function says: signed in, back, an exception, or waiting; the same logic is at source/password_manager.py:219-258; what signing in needs is stated of that function by `Forms.AsWrittenSignsInOnlyListed` and `Forms.AsWrittenSignInNeedsSomeMaster` |
| `Forms.StaleFlagSignsInAsOtherAccount` | source/password_manager_framework.py:330-345 | as written, the right password for B and then a listed mail A signs in as A with no password of A typed; the corrected loop does not |
| `Forms.AsWrittenSignsInOnlyListed` | source/password_manager_framework.py:330-341 | in the loop as written, signing in as m needs m in the accounts list; the same logic is at source/password_manager.py:248-255 |
| `Forms.AsWrittenSignInNeedsSomeMaster` | source/password_manager_framework.py:336-345 | in the loop as written, signing in needs some typed password that hashes to the master password of some account, not necessarily the one signed in |
| `Forms.SignInNeedsOwnPassword` | source/password_manager_framework.py:330-345 | with the flag cleared on a new mail, signing in as m needs m listed and a typed password that hashes to m's master password |

## Left out

- Curses drawing and the screen flow are left out: menus, colours, cursor moves, `start_screen`, `register`, `password_manager`, `show_password`, `change_data` and `main.py`. They are terminal output.
- How the form screens call `choice_function` and `input_function` is not modelled. Each round of a form loop is an event already holding the menu item chosen and the line typed. The key loops are modelled and proved separately in `KeyInput`.
- `is_sure_to_exit_program` never exits, because the key read is compared with a list. It is modelled as reading one key and returning.
- `sys.exit` and the terminal shutdown are left out.
- `request_api` and `requests.get` are network I/O. Their answer is the `BreachService` function; `None` stands for `RequestException`. The 10-second timeout is not modelled.
- What `is_password_pwned` and the policy checks print to the terminal is not modelled, except the messages of `source/passwordValidation.py` and `passwortpruefung.py`, which are returned as a sequence.
- SHA-1, SHA-256 (`hash_password`), PBKDF2-HMAC-SHA256 and AES are library code. They are function parameters.
  - Nothing is proved that depends on them.
  - In particular, "the ciphertext differs from the plaintext" and "a wrong password fails" are not proved.
- The randomness of `os.urandom`, `random.choice`, `random.choices` and `random.shuffle` is not modelled. Salt and IV are parameters, draws are nondeterministic, and only membership, length, permutation and the error cases are proved.
- File and JSON I/O are left out: `open`, `json.load`, `json.dump`, `os.path.exists` and `create_accounts_file`. JSON/UTF-8 encoding is a pair of functions assumed to invert each other on the saved dictionary. An exception raised half-way leaves the file untouched, since the file is written only at the end.
- `datetime.now().strftime` is passed in as a timestamp string.
- Module-level demo code is left out: verschluesseln.py:105-115, source/passwordValidation.py:83-84, passwortpruefung.py:49-50, source/password_generation.py:71-81, source/passwortgenerierung.py:70-80 and passwortgenerierung.py:58-59.
- The vault module is not wired into the `data.json` store, so nothing connects `Vault` and `Store`.
- `Validation.HasDigit`: `\d` is taken as ASCII digits. Python 3 also matches other Unicode decimal digits, so the model is weaker there.
- `Validation.IsMailCorrect`: `\w` in the boundary `\b` is taken as ASCII letters, digits and `_`. Python 3 also counts other Unicode word characters.
- `Validation.IsMailCorrect`: it models one match per (at, dot, end) position. Regex backtracking order does not matter for a boolean match.
- `Vault.LoadEncryptedDict`: its own contract states only the short-file error. What it does on a framed file is stated by `Vault.LoadAfterSave` and `Vault.DecryptData`.
- `Vault.CfbEncrypt`: its own contract states only the length. Its meaning is stated by `Vault.CfbRoundTrip`.
- `KeyInput.Typed`: key codes are limited to 0..511 (`IsKeyCode`), the codes `getch` returns and `chr` accepts. Negative codes, such as `getch`'s -1 in non-blocking mode, are not modelled.
- `Forms.AddNewPasswordScreen`:
  - choosing Back calls `password_manager` again, which never returns into this screen's loop; it is modelled as ending with `Back`;
  - `passes` abstracts `is_password_correct`, and an exception it raises is not propagated.
- `Forms.SignInScreen`:
  - `Credentials` assumes `data["accounts"]["accounts-list"]` exists;
  - `create_accounts_file` never creates that list and `safe_register_data` never appends to it, so on such a file the first mail typed raises KeyError.
- `Store.RenameEntryKeepsConsistency` requires the new name to be free. A rename onto another existing name drops that name's entry and lists it twice, which is the same duplication as the first finding below.
- `Store.DataFile`: the "accounts-list" key under `accounts` is not modelled as an account.
- Tests that disagree with the code (the e-mail tests are disabled, the others are live):
  - tests/test_password_manager.py:252-255 expects "hello" where `input_function` returns "helo" (`KeyInput.NavigationExample`);
  - tests/test_password_generation.py:56-59 expects a ValueError the code does not raise (`Generator.TagIgnoresSwitches`);
  - tests/test_password_validation.py:24-36 lists as invalid several addresses the pattern accepts (`Validation.MailAcceptsDoubleDot` and the two lemmas after it). These tests sit inside a string literal (lines 8-41), so they never run.

## Findings

| source | as written | input that shows it | evidently intended | confidence | as-written member | corrected member |
|---|---|---|---|---|---|---|
| source/password.py:113-116 | `password_available` is set when a typed password passes and is never cleared | name N, strong password S, then weak password W, then Save: W is saved | the flag says whether the password now in the field passes | not executed | `Forms.StickyFlagSavesWeakPassword` | `Forms.SavedPasswordPasses` |
| source/password_manager_framework.py:330-345 | a new mail resets `mail_correct` but leaves `password_correct` as it was | mail B (account exists, not listed), B's password, then listed mail A: signed in as A | the password flag is cleared when the mail changes | not executed | `Forms.StaleFlagSignsInAsOtherAccount` | `Forms.SignInNeedsOwnPassword` |
| source/password.py:132-133 | the name is appended to `passwords-list` even when it is already listed | add entry X twice, then delete X: X stays listed with no entry, and the list screen (source/password_manager.py:49-60) raises KeyError | each name is listed once, next to its entry | not executed | `Store.DuplicateThenDeleteLeavesDanglingName` | `Store.AddEntryCheckedKeepsConsistency` |
| source/data.py:217 | `hash_password` is used, but its import at source/data.py:19 is commented out | any call of `safe_register_data` raises NameError | register the account with the hashed master password | not executed | `Store.DataFile.SafeRegisterDataWithoutImport` | `Store.DataFile.SafeRegisterData` |
