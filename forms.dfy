/**
 * The two form screens whose flags decide what is stored and who gets in:
 * add_new_password (source/password.py, with the same code in
 * source/password_manager.py) and signIn (source/password_manager_framework.py,
 * with the same logic in sign_in of source/password_manager.py). Each screen
 * is a loop: choice_function picks a menu item ky, and for an input field
 * input_function reads a line. Here that loop is a sequence of events, each
 * the item picked and the line the field would read.
 */
module Forms {
  import opened Common
  import opened Store

  /** One round of a form loop: the menu item chosen and the line typed into it. */
  datatype FormEvent = Picked(ky: int, input: string)

  /* ---------- add_new_password ---------- */

  const NameField := 0
  const UrlField := 1
  const NotesField := 2
  const PasswordField := 3
  const SaveButton := 4
  const BackButton := 5

  /**
   * The local variables of add_new_password: the four fields, the two flags
   * Save checks, and whether some field was chosen yet (input_y is only
   * bound once one was).
   */
  datatype AddForm = AddForm(name: string, url: string, notes: string, password: string,
                             nameAvailable: bool, passwordAvailable: bool, fieldChosen: bool)

  const EmptyAddForm := AddForm("", "", "", "", false, false, false)

  /**
   * How the screen ends: Save with the fields, Back to the list, the
   * UnboundLocalError of Save before any field was chosen, or still waiting
   * when the events run out.
   */
  datatype AddOutcome =
    | Saved(name: string, password: string, url: string, notes: string)
    | Back
    | Unbound
    | Waiting

  /**
   * One line typed into a field, as written: a password that passes the
   * check sets password_available, and nothing ever clears it again.
   */
  function TypeIntoAsWritten(form: AddForm, e: FormEvent, passes: string -> bool): AddForm {
    if e.ky == NameField then form.(name := e.input, nameAvailable := true, fieldChosen := true)
    else if e.ky == UrlField then form.(url := e.input, fieldChosen := true)
    else if e.ky == NotesField then form.(notes := e.input, fieldChosen := true)
    else if e.ky == PasswordField then
      form.(password := e.input, passwordAvailable := form.passwordAvailable || passes(e.input), fieldChosen := true)
    else form
  }

  /** One line typed into a field, with the flag saying whether the password now typed passes. */
  function TypeInto(form: AddForm, e: FormEvent, passes: string -> bool): AddForm {
    if e.ky == PasswordField then
      form.(password := e.input, passwordAvailable := passes(e.input), fieldChosen := true)
    else TypeIntoAsWritten(form, e, passes)
  }

  /**
   * The add_new_password loop as written. Save with a flag missing reads a
   * line at the last field's position and throws it away, or raises
   * UnboundLocalError when no field was chosen yet.
   */
  function AddNewPasswordAsWritten(events: seq<FormEvent>, passes: string -> bool, form: AddForm): AddOutcome
    decreases |events|
  {
    if events == [] then Waiting
    else
      var e := events[0];
      if e.ky == BackButton then Back
      else if e.ky == SaveButton && form.nameAvailable && form.passwordAvailable then
        Saved(form.name, form.password, form.url, form.notes)
      else if !(NameField <= e.ky <= PasswordField) && !form.fieldChosen then Unbound
      else AddNewPasswordAsWritten(events[1..], passes, TypeIntoAsWritten(form, e, passes))
  }

  /** The add_new_password loop with the password flag recomputed for every password typed. */
  function AddNewPassword(events: seq<FormEvent>, passes: string -> bool, form: AddForm): AddOutcome
    decreases |events|
  {
    if events == [] then Waiting
    else
      var e := events[0];
      if e.ky == BackButton then Back
      else if e.ky == SaveButton && form.nameAvailable && form.passwordAvailable then
        Saved(form.name, form.password, form.url, form.notes)
      else if !(NameField <= e.ky <= PasswordField) && !form.fieldChosen then Unbound
      else AddNewPassword(events[1..], passes, TypeInto(form, e, passes))
  }

  /**
   * The add_new_password loop as the code runs it, flag by flag. passes
   * stands for is_password_correct.
   */
  method AddNewPasswordScreen(events: seq<FormEvent>, passes: string -> bool) returns (outcome: AddOutcome)
    ensures outcome == AddNewPasswordAsWritten(events, passes, EmptyAddForm)
  {
    var name, url, notes, password := "", "", "", "";
    var nameAvailable, passwordAvailable := false, false;
    var fieldChosen := false;
    var i := 0;
    while i < |events|
      invariant 0 <= i <= |events|
      invariant AddNewPasswordAsWritten(events, passes, EmptyAddForm)
             == AddNewPasswordAsWritten(events[i..], passes,
                  AddForm(name, url, notes, password, nameAvailable, passwordAvailable, fieldChosen))
      decreases |events| - i
    {
      assert events[i..][1..] == events[i + 1..];
      var ky := events[i].ky;
      if ky == BackButton {
        return Back;
      } else if ky == SaveButton && nameAvailable && passwordAvailable {
        return Saved(name, password, url, notes);
      }
      if !(NameField <= ky <= PasswordField) && !fieldChosen {
        return Unbound;
      }
      var userInput := events[i].input;
      if ky == NameField {
        name := userInput;
        nameAvailable := true;
      } else if ky == UrlField {
        url := userInput;
      } else if ky == NotesField {
        notes := userInput;
      } else if ky == PasswordField {
        password := userInput;
        if passes(password) {
          passwordAvailable := true;
        }
      }
      if NameField <= ky <= PasswordField {
        fieldChosen := true;
      }
      i := i + 1;
    }
    return Waiting;
  }

  /** The form's flags tell the truth about its fields. */
  predicate FlagsHold(form: AddForm, passes: string -> bool) {
    form.passwordAvailable ==> passes(form.password)
  }

  /** With the fix, what Save stores always passes the password check. */
  lemma {:induction false} SavedPasswordPasses(events: seq<FormEvent>, passes: string -> bool, form: AddForm)
    requires FlagsHold(form, passes)
    ensures AddNewPassword(events, passes, form).Saved? ==> passes(AddNewPassword(events, passes, form).password)
    decreases |events|
  {
    if events != [] {
      var e := events[0];
      if !(e.ky == BackButton || (e.ky == SaveButton && form.nameAvailable && form.passwordAvailable)
           || (!(NameField <= e.ky <= PasswordField) && !form.fieldChosen)) {
        SavedPasswordPasses(events[1..], passes, TypeInto(form, e, passes));
      }
    }
  }

  /** With the fix, Save stores only after a name was typed. */
  lemma {:induction false} SavedOnlyWithName(events: seq<FormEvent>, passes: string -> bool, form: AddForm)
    requires !form.nameAvailable
    ensures AddNewPassword(events, passes, form).Saved? ==>
              exists i :: 0 <= i < |events| && events[i].ky == NameField
    decreases |events|
  {
    if events != [] {
      var e := events[0];
      if e.ky != NameField && e.ky != BackButton && !(!(NameField <= e.ky <= PasswordField) && !form.fieldChosen) {
        SavedOnlyWithName(events[1..], passes, TypeInto(form, e, passes));
        if AddNewPassword(events, passes, form).Saved? {
          var i :| 0 <= i < |events[1..]| && events[1..][i].ky == NameField;
          assert events[i + 1].ky == NameField;
        }
      }
    }
  }

  /** As written too, Save stores only after a name was typed (or the form already had one). */
  lemma {:induction false} AsWrittenSavedOnlyWithName(events: seq<FormEvent>, passes: string -> bool, form: AddForm)
    ensures AddNewPasswordAsWritten(events, passes, form).Saved? ==>
              form.nameAvailable || exists i :: 0 <= i < |events| && events[i].ky == NameField
    decreases |events|
  {
    if events != [] {
      var e := events[0];
      var next := TypeIntoAsWritten(form, e, passes);
      if e.ky != NameField && e.ky != BackButton && !(e.ky == SaveButton && form.nameAvailable && form.passwordAvailable)
         && !(!(NameField <= e.ky <= PasswordField) && !form.fieldChosen) {
        AsWrittenSavedOnlyWithName(events[1..], passes, next);
        assert next.nameAvailable == form.nameAvailable;
        if AddNewPasswordAsWritten(events, passes, form).Saved? && !form.nameAvailable {
          var i :| 0 <= i < |events[1..]| && events[1..][i].ky == NameField;
          assert events[i + 1].ky == NameField;
        }
      }
    }
  }

  /**
   * As written, Save stores only after some password typed passed the check
   * (or the form's flag was already up); the password stored need not be
   * that one.
   */
  lemma {:induction false} AsWrittenSavedAfterPassingPassword(events: seq<FormEvent>, passes: string -> bool,
                                                              form: AddForm)
    ensures AddNewPasswordAsWritten(events, passes, form).Saved? ==>
              form.passwordAvailable
              || exists i :: 0 <= i < |events| && events[i].ky == PasswordField && passes(events[i].input)
    decreases |events|
  {
    if events != [] {
      var e := events[0];
      var next := TypeIntoAsWritten(form, e, passes);
      if !(e.ky == PasswordField && passes(e.input)) && e.ky != BackButton
         && !(e.ky == SaveButton && form.nameAvailable && form.passwordAvailable)
         && !(!(NameField <= e.ky <= PasswordField) && !form.fieldChosen) {
        AsWrittenSavedAfterPassingPassword(events[1..], passes, next);
        assert next.passwordAvailable == form.passwordAvailable;
        if AddNewPasswordAsWritten(events, passes, form).Saved? && !form.passwordAvailable {
          var i :| 0 <= i < |events[1..]| && events[1..][i].ky == PasswordField && passes(events[1..][i].input);
          assert events[i + 1] == events[1..][i];
        }
      }
    }
  }

  /**
   * As written, a strong password followed by a weak one is saved with the
   * weak one: the flag the strong one set is still up.
   */
  lemma StickyFlagSavesWeakPassword(passes: string -> bool, name: string, strong: string, weak: string)
    requires passes(strong) && !passes(weak)
    ensures var events := [Picked(NameField, name), Picked(PasswordField, strong),
                           Picked(PasswordField, weak), Picked(SaveButton, "")];
            && AddNewPasswordAsWritten(events, passes, EmptyAddForm) == Saved(name, weak, "", "")
            && !passes(AddNewPasswordAsWritten(events, passes, EmptyAddForm).password)
            && AddNewPassword(events, passes, EmptyAddForm) == Waiting
  {
    var events := [Picked(NameField, name), Picked(PasswordField, strong),
                   Picked(PasswordField, weak), Picked(SaveButton, "")];
    var f1 := TypeIntoAsWritten(EmptyAddForm, events[0], passes);
    var f2 := TypeIntoAsWritten(f1, events[1], passes);
    var f3 := TypeIntoAsWritten(f2, events[2], passes);
    assert f3.passwordAvailable && f3.password == weak && f3.name == name;
    assert events[1..][1..] == events[2..] && events[2..][1..] == events[3..] && events[3..][1..] == [];
    assert AddNewPasswordAsWritten(events, passes, EmptyAddForm) == AddNewPasswordAsWritten(events[1..], passes, f1);
    assert AddNewPasswordAsWritten(events[1..], passes, f1) == AddNewPasswordAsWritten(events[2..], passes, f2);
    assert AddNewPasswordAsWritten(events[2..], passes, f2) == AddNewPasswordAsWritten(events[3..], passes, f3);
    var g1 := TypeInto(EmptyAddForm, events[0], passes);
    var g2 := TypeInto(g1, events[1], passes);
    var g3 := TypeInto(g2, events[2], passes);
    assert !g3.passwordAvailable && g3.fieldChosen;
    assert AddNewPassword(events, passes, EmptyAddForm) == AddNewPassword(events[1..], passes, g1);
    assert AddNewPassword(events[1..], passes, g1) == AddNewPassword(events[2..], passes, g2);
    assert AddNewPassword(events[2..], passes, g2) == AddNewPassword(events[3..], passes, g3);
    assert AddNewPassword(events[3..], passes, g3) == AddNewPassword([], passes, TypeInto(g3, events[3], passes));
  }

  /** When every password typed passes, the fix changes nothing. */
  lemma {:induction false} FixAgreesOnPassingPasswords(events: seq<FormEvent>, passes: string -> bool, form: AddForm)
    requires forall i :: 0 <= i < |events| && events[i].ky == PasswordField ==> passes(events[i].input)
    ensures AddNewPassword(events, passes, form) == AddNewPasswordAsWritten(events, passes, form)
    decreases |events|
  {
    if events != [] {
      var e := events[0];
      if e.ky == PasswordField {
        assert passes(e.input);
      }
      assert TypeInto(form, e, passes) == TypeIntoAsWritten(form, e, passes);
      FixAgreesOnPassingPasswords(events[1..], passes, TypeInto(form, e, passes));
    }
  }

  /** The entry add_new_password builds: the password starts the history and both dates are the time of saving. */
  function NewEntry(name: string, password: string, url: string, notes: string, timestamp: string): (e: Entry)
    ensures e.oldPasswords == [e.password] && e.firstAccess == e.lastChange == Some(timestamp)
  {
    Entry(name, password, url, notes, [password], Some(timestamp), Some(timestamp))
  }

  /** What Save does to the account, with the name appended only when it is not listed yet. */
  function SaveEntry(acc: Account, outcome: AddOutcome, timestamp: string): Account
    requires outcome.Saved?
  {
    AddEntryChecked(acc, outcome.name, NewEntry(outcome.name, outcome.password, outcome.url, outcome.notes, timestamp))
  }

  /**
   * With both fixes, a saved form leaves the account's list and map in step
   * and the stored password passes the check.
   */
  lemma SaveKeepsAccountSound(acc: Account, events: seq<FormEvent>, passes: string -> bool, timestamp: string)
    requires Consistent(acc)
    requires AddNewPassword(events, passes, EmptyAddForm).Saved?
    ensures var outcome := AddNewPassword(events, passes, EmptyAddForm);
            var a := SaveEntry(acc, outcome, timestamp);
            && Consistent(a)
            && outcome.name in a.passwords
            && passes(a.passwords[outcome.name].password)
  {
    var outcome := AddNewPassword(events, passes, EmptyAddForm);
    SavedPasswordPasses(events, passes, EmptyAddForm);
    AddEntryCheckedKeepsConsistency(acc, outcome.name,
      NewEntry(outcome.name, outcome.password, outcome.url, outcome.notes, timestamp));
  }

  /* ---------- signIn ---------- */

  const MailField := 0
  const MasterField := 1
  const BackToStart := 2

  /** The key of data["accounts"] that holds the list of accounts rather than an account. */
  const AccountsListKey := "accounts-list"

  /** The local variables of signIn: the last mail and password typed and the two flags. */
  datatype SignInForm = SignInForm(mail: Option<string>, password: Option<string>,
                                   mailCorrect: bool, passwordCorrect: bool)

  const EmptySignInForm := SignInForm(None, None, false, false)

  /**
   * The exceptions signIn can raise: UnboundLocalError for a password typed
   * before any mail, KeyError for a mail with no account, TypeError for the
   * mail "accounts-list" (its value is the list, indexed by a string).
   */
  datatype SignInError = UnboundMail | NoAccount(mail: string) | ListIndexedByString

  datatype SignInOutcome =
    | SignedIn(mail: string)
    | BackToStartScreen
    | Raised(error: SignInError)
    | StillWaiting

  /**
   * The stored data signIn reads once at the start: data["accounts"]["accounts-list"]
   * and, for each account, data["accounts"][mail]["master-password"].
   */
  datatype Credentials = Credentials(listed: seq<string>, masters: map<string, string>)

  /** The password typed is checked against the master password of the last mail typed. */
  function CheckPassword(creds: Credentials, form: SignInForm, password: string, hash: string -> string)
    : Result<SignInForm, SignInError>
  {
    if form.mail.None? then Failure(UnboundMail)
    else if form.mail.value == AccountsListKey then Failure(ListIndexedByString)
    else if form.mail.value !in creds.masters then Failure(NoAccount(form.mail.value))
    else Success(form.(password := Some(password),
                       passwordCorrect := hash(password) == creds.masters[form.mail.value]))
  }

  /** The signIn loop as written: a new mail leaves the password flag as it was. */
  function SignInAsWritten(events: seq<FormEvent>, creds: Credentials, hash: string -> string, form: SignInForm)
    : SignInOutcome
    requires forall i :: 0 <= i < |events| ==> 0 <= events[i].ky <= BackToStart
    decreases |events|
  {
    if events == [] then StillWaiting
    else
      var e := events[0];
      if e.ky == BackToStart then BackToStartScreen
      else
        var next :=
          if e.ky == MailField then Success(form.(mail := Some(e.input), mailCorrect := e.input in creds.listed))
          else CheckPassword(creds, form, e.input, hash);
        match next
        case Failure(err) => Raised(err)
        case Success(f) =>
          if f.mailCorrect && f.passwordCorrect then SignedIn(f.mail.value)
          else SignInAsWritten(events[1..], creds, hash, f)
  }

  /** The signIn loop as the code runs it, with the two flags set in turn. */
  method SignInScreen(events: seq<FormEvent>, creds: Credentials, hash: string -> string)
    returns (outcome: SignInOutcome)
    requires forall i :: 0 <= i < |events| ==> 0 <= events[i].ky <= BackToStart
    ensures outcome == SignInAsWritten(events, creds, hash, EmptySignInForm)
  {
    var mail: Option<string> := None;
    var password: Option<string> := None;
    var mailCorrect, passwordCorrect := false, false;
    var i := 0;
    while i < |events|
      invariant 0 <= i <= |events|
      invariant SignInAsWritten(events, creds, hash, EmptySignInForm)
             == SignInAsWritten(events[i..], creds, hash, SignInForm(mail, password, mailCorrect, passwordCorrect))
      decreases |events| - i
    {
      assert events[i..][1..] == events[i + 1..];
      var ky := events[i].ky;
      if ky == BackToStart {
        return BackToStartScreen;
      }
      var userInput := events[i].input;
      if ky == MailField {
        mail := Some(userInput);
        mailCorrect := userInput in creds.listed;
      }
      if ky == MasterField {
        if mail.None? {
          return Raised(UnboundMail);
        } else if mail.value == AccountsListKey {
          return Raised(ListIndexedByString);
        } else if mail.value !in creds.masters {
          return Raised(NoAccount(mail.value));
        }
        password := Some(userInput);
        passwordCorrect := hash(userInput) == creds.masters[mail.value];
      }
      if mailCorrect && passwordCorrect {
        return SignedIn(mail.value);
      }
      i := i + 1;
    }
    return StillWaiting;
  }

  /** The signIn loop with the password flag cleared whenever a new mail is typed. */
  function SignIn(events: seq<FormEvent>, creds: Credentials, hash: string -> string, form: SignInForm)
    : SignInOutcome
    requires forall i :: 0 <= i < |events| ==> 0 <= events[i].ky <= BackToStart
    decreases |events|
  {
    if events == [] then StillWaiting
    else
      var e := events[0];
      if e.ky == BackToStart then BackToStartScreen
      else
        var next :=
          if e.ky == MailField
          then Success(form.(mail := Some(e.input), mailCorrect := e.input in creds.listed, passwordCorrect := false))
          else CheckPassword(creds, form, e.input, hash);
        match next
        case Failure(err) => Raised(err)
        case Success(f) =>
          if f.mailCorrect && f.passwordCorrect then SignedIn(f.mail.value)
          else SignIn(events[1..], creds, hash, f)
  }

  /** The flags say what they mean about the mail and password last typed. */
  predicate SignInFlagsHold(form: SignInForm, creds: Credentials, hash: string -> string) {
    && (form.mailCorrect ==> form.mail.Some? && form.mail.value in creds.listed)
    && (form.passwordCorrect ==>
          form.mail.Some? && form.password.Some? && form.mail.value in creds.masters
          && hash(form.password.value) == creds.masters[form.mail.value])
  }

  /** The passwords typed into the master password field. */
  function TypedPasswords(events: seq<FormEvent>): (ps: seq<string>)
    ensures forall i :: 0 <= i < |events| && events[i].ky == MasterField ==> events[i].input in ps
  {
    if events == [] then []
    else (if events[0].ky == MasterField then [events[0].input] else []) + TypedPasswords(events[1..])
  }

  /**
   * With the fix, signing in as a mail needs the mail listed and the master
   * password of that very mail typed: the last password typed hashes to it.
   */
  lemma {:induction false} SignInNeedsOwnPassword(events: seq<FormEvent>, creds: Credentials,
                                                  hash: string -> string, form: SignInForm)
    requires forall i :: 0 <= i < |events| ==> 0 <= events[i].ky <= BackToStart
    requires SignInFlagsHold(form, creds, hash)
    ensures SignIn(events, creds, hash, form).SignedIn? ==>
              var m := SignIn(events, creds, hash, form).mail;
              && m in creds.listed && m in creds.masters
              && exists p :: p in TypedPasswords(events) && hash(p) == creds.masters[m]
    decreases |events|
  {
    if events != [] && events[0].ky != BackToStart {
      var e := events[0];
      var next :=
        if e.ky == MailField
        then Success(form.(mail := Some(e.input), mailCorrect := e.input in creds.listed, passwordCorrect := false))
        else CheckPassword(creds, form, e.input, hash);
      if next.Success? {
        var f := next.value;
        assert SignInFlagsHold(f, creds, hash);
        if f.mailCorrect && f.passwordCorrect {
          assert e.ky == MasterField;
          assert f.password == Some(e.input);
          assert e.input in TypedPasswords(events);
        } else {
          SignInNeedsOwnPassword(events[1..], creds, hash, f);
          if SignIn(events, creds, hash, form).SignedIn? {
            var m := SignIn(events, creds, hash, form).mail;
            var p :| p in TypedPasswords(events[1..]) && hash(p) == creds.masters[m];
            assert TypedPasswords(events) == (if e.ky == MasterField then [e.input] else []) + TypedPasswords(events[1..]);
            assert p in TypedPasswords(events);
          }
        }
      }
    }
  }

  /** What the as-written mail flag means: the last mail typed is listed. */
  predicate MailFlagHolds(form: SignInForm, creds: Credentials) {
    form.mailCorrect ==> form.mail.Some? && form.mail.value in creds.listed
  }

  /** As written, signing in as m needs m in the accounts list. */
  lemma {:induction false} AsWrittenSignsInOnlyListed(events: seq<FormEvent>, creds: Credentials,
                                                      hash: string -> string, form: SignInForm)
    requires forall i :: 0 <= i < |events| ==> 0 <= events[i].ky <= BackToStart
    requires MailFlagHolds(form, creds)
    ensures SignInAsWritten(events, creds, hash, form).SignedIn? ==>
              SignInAsWritten(events, creds, hash, form).mail in creds.listed
    decreases |events|
  {
    if events != [] && events[0].ky != BackToStart {
      var e := events[0];
      var next :=
        if e.ky == MailField then Success(form.(mail := Some(e.input), mailCorrect := e.input in creds.listed))
        else CheckPassword(creds, form, e.input, hash);
      if next.Success? {
        assert MailFlagHolds(next.value, creds);
        if !(next.value.mailCorrect && next.value.passwordCorrect) {
          AsWrittenSignsInOnlyListed(events[1..], creds, hash, next.value);
        }
      }
    }
  }

  /**
   * As written, signing in needs some typed password that hashes to the
   * master password of some account (or the form's flag was already up);
   * the account need not be the one signed in.
   */
  lemma {:induction false} AsWrittenSignInNeedsSomeMaster(events: seq<FormEvent>, creds: Credentials,
                                                          hash: string -> string, form: SignInForm)
    requires forall i :: 0 <= i < |events| ==> 0 <= events[i].ky <= BackToStart
    ensures SignInAsWritten(events, creds, hash, form).SignedIn? ==>
              form.passwordCorrect
              || exists p, k :: p in TypedPasswords(events) && k in creds.masters && hash(p) == creds.masters[k]
    decreases |events|
  {
    if events != [] && events[0].ky != BackToStart {
      var e := events[0];
      var next :=
        if e.ky == MailField then Success(form.(mail := Some(e.input), mailCorrect := e.input in creds.listed))
        else CheckPassword(creds, form, e.input, hash);
      if next.Success? && SignInAsWritten(events, creds, hash, form).SignedIn? && !form.passwordCorrect {
        var f := next.value;
        assert TypedPasswords(events) == (if e.ky == MasterField then [e.input] else []) + TypedPasswords(events[1..]);
        if e.ky == MasterField && f.passwordCorrect {
          var k := form.mail.value;
          assert e.input in TypedPasswords(events) && k in creds.masters && hash(e.input) == creds.masters[k];
        } else {
          assert !f.passwordCorrect;
          AsWrittenSignInNeedsSomeMaster(events[1..], creds, hash, f);
          var p, k :| p in TypedPasswords(events[1..]) && k in creds.masters && hash(p) == creds.masters[k];
          assert p in TypedPasswords(events);
        }
      }
    }
  }

  /**
   * As written, the right password for one account B, then a listed mail A,
   * signs in as A with no password of A typed. B need not be listed: the
   * list is never updated when an account is registered.
   */
  lemma StaleFlagSignsInAsOtherAccount(creds: Credentials, hash: string -> string,
                                       a: string, b: string, pB: string)
    requires a in creds.listed && b !in creds.listed
    requires b != AccountsListKey && b in creds.masters && hash(pB) == creds.masters[b]
    requires a in creds.masters && creds.masters[a] != creds.masters[b]
    ensures var events := [Picked(MailField, b), Picked(MasterField, pB), Picked(MailField, a)];
            && SignInAsWritten(events, creds, hash, EmptySignInForm) == SignedIn(a)
            && !(exists p :: p in TypedPasswords(events) && hash(p) == creds.masters[a])
            && SignIn(events, creds, hash, EmptySignInForm) == StillWaiting
  {
    var events := [Picked(MailField, b), Picked(MasterField, pB), Picked(MailField, a)];
    var f1 := EmptySignInForm.(mail := Some(b), mailCorrect := false);
    var f2 := f1.(password := Some(pB), passwordCorrect := true);
    assert CheckPassword(creds, f1, pB, hash) == Success(f2);
    assert events[1..][1..] == [Picked(MailField, a)];
    assert SignInAsWritten(events[1..][1..], creds, hash, f2) == SignedIn(a);
    assert TypedPasswords(events) == [pB] by {
      assert events[1..][1..] == events[2..] && events[2..][1..] == [];
      assert TypedPasswords(events[2..]) == [] + TypedPasswords([]);
      assert TypedPasswords(events[1..]) == [pB] + TypedPasswords(events[2..]);
      assert TypedPasswords(events) == [] + TypedPasswords(events[1..]);
    }
    var g1 := f1.(passwordCorrect := false);
    var g2 := g1.(password := Some(pB), passwordCorrect := true);
    assert CheckPassword(creds, g1, pB, hash) == Success(g2);
    var g3 := g2.(mail := Some(a), mailCorrect := true, passwordCorrect := false);
    assert SignIn(events[1..][1..], creds, hash, g2) == SignIn([], creds, hash, g3);
  }
}
