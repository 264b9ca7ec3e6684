/**
 * The credential store of data.json once the JSON reading and writing is
 * stripped: a table of accounts keyed by mail, each with a list of entry
 * names ("passwords-list", duplicates possible) and a map from name to entry
 * ("passwords"). The operations of source/password.py,
 * source/password_manager.py and source/data.py update the table in place;
 * an exception raised half-way leaves the file as it was, because the file
 * is only written at the end.
 */
module Store {
  import opened Common

  /** One saved password: the JSON keys name, password, url, text, oldpasswordlist, dateoffirstaccess, dateoflastchange. */
  datatype Entry = Entry(
    name: string,
    password: string,
    url: string,
    text: string,
    oldPasswords: seq<string>,
    firstAccess: Option<string>,
    lastChange: Option<string>)

  /** One account: the JSON keys mail, master-password, passwords-list, passwords. */
  datatype Account = Account(
    mail: string,
    masterPassword: string,
    passwordsList: seq<string>,
    passwords: map<string, Entry>)

  /** The exceptions the table operations can raise. */
  datatype StoreError = KeyError(key: string) | ValueError(item: string) | NameError(name: string)

  /* ---------- list operations ---------- */

  /** The position of the first occurrence of x. */
  function IndexOf(s: seq<string>, x: string): (i: nat)
    requires x in s
    ensures i < |s| && s[i] == x
    ensures forall j :: 0 <= j < i ==> s[j] != x
  {
    if s[0] == x then 0 else 1 + IndexOf(s[1..], x)
  }

  /** list.remove(x) on a list that holds x. */
  function RemoveFirst(s: seq<string>, x: string): seq<string>
    requires x in s
  {
    if s[0] == x then s[1..] else [s[0]] + RemoveFirst(s[1..], x)
  }

  /** list.remove drops exactly the first occurrence and keeps the order of the rest. */
  lemma RemoveFirstDropsFirstOccurrence(s: seq<string>, x: string)
    requires x in s
    ensures RemoveFirst(s, x) == s[..IndexOf(s, x)] + s[IndexOf(s, x) + 1..]
    ensures multiset(RemoveFirst(s, x)) == multiset(s) - multiset{x}
    ensures |RemoveFirst(s, x)| == |s| - 1
  {
    RemoveFirstSplices(s, x);
    RemoveFirstMultiset(s, x);
  }

  lemma {:induction false} RemoveFirstMultiset(s: seq<string>, x: string)
    requires x in s
    ensures multiset(RemoveFirst(s, x)) == multiset(s) - multiset{x}
  {
    assert s == [s[0]] + s[1..];
    if s[0] != x {
      var rest := s[1..];
      assert x in rest;
      RemoveFirstMultiset(rest, x);
      assert multiset(RemoveFirst(s, x)) == multiset{s[0]} + multiset(RemoveFirst(rest, x));
    }
  }

  lemma {:induction false} RemoveFirstSplices(s: seq<string>, x: string)
    requires x in s
    ensures RemoveFirst(s, x) == s[..IndexOf(s, x)] + s[IndexOf(s, x) + 1..]
  {
    if s[0] != x {
      RemoveFirstSplices(s[1..], x);
      var i := IndexOf(s[1..], x);
      assert IndexOf(s, x) == i + 1;
      assert RemoveFirst(s, x) == [s[0]] + RemoveFirst(s[1..], x);
      assert s[..i + 1] == [s[0]] + s[1..][..i];
      assert s[i + 2..] == s[1..][i + 1..];
      assert RemoveFirst(s, x) == s[..i + 1] + s[i + 2..];
    }
  }

  /** The password history after a change: the new password is appended unless it is already there. */
  function AppendIfAbsent(history: seq<string>, password: string): seq<string> {
    if password in history then history else history + [password]
  }

  /** The old history is always a prefix of the new one, and the new password is always in it. */
  lemma AppendIfAbsentExtends(history: seq<string>, password: string)
    ensures var h := AppendIfAbsent(history, password);
            h[..|history|] == history && password in h
            && |h| == |history| + (if password in history then 0 else 1)
  {
    var h := AppendIfAbsent(history, password);
    assert h[..|history|] == history;
    if password !in history {
      assert h[|history|] == password;
    }
  }

  /* ---------- what each operation does to one account ---------- */

  /** safe_new_password_data: the name goes to the end of the list, new_data is merged into the map. */
  function AddEntry(acc: Account, newData: map<string, Entry>, name: string): Account {
    acc.(passwordsList := acc.passwordsList + [name], passwords := acc.passwords + newData)
  }

  lemma AddEntryAppends(acc: Account, newData: map<string, Entry>, name: string)
    ensures var a := AddEntry(acc, newData, name);
            && |a.passwordsList| == |acc.passwordsList| + 1
            && a.passwordsList[..|acc.passwordsList|] == acc.passwordsList
            && a.passwordsList[|acc.passwordsList|] == name
            && (forall k :: k in newData ==> k in a.passwords && a.passwords[k] == newData[k])
            && (forall k :: k in acc.passwords && k !in newData ==> k in a.passwords && a.passwords[k] == acc.passwords[k])
            && (forall k :: k in a.passwords ==> k in acc.passwords || k in newData)
            && a.mail == acc.mail && a.masterPassword == acc.masterPassword
  {
    var a := AddEntry(acc, newData, name);
    assert a.passwordsList[..|acc.passwordsList|] == acc.passwordsList;
  }

  /**
   * delete_password: `del passwords[name]` raises KeyError before the list is
   * touched; `list.remove(name)` raises ValueError when the name is not listed.
   */
  function DeleteEntry(acc: Account, name: string): Result<Account, StoreError> {
    if name !in acc.passwords then Failure(KeyError(name))
    else if name !in acc.passwordsList then Failure(ValueError(name))
    else Success(acc.(passwords := acc.passwords - {name},
                      passwordsList := RemoveFirst(acc.passwordsList, name)))
  }

  lemma DeleteEntryRemoves(acc: Account, name: string)
    ensures DeleteEntry(acc, name).Success? <==> name in acc.passwords && name in acc.passwordsList
    ensures DeleteEntry(acc, name).Success? ==>
              var a := DeleteEntry(acc, name).value;
              var i := IndexOf(acc.passwordsList, name);
              && name !in a.passwords
              && a.passwordsList == acc.passwordsList[..i] + acc.passwordsList[i + 1..]
              && multiset(a.passwordsList) == multiset(acc.passwordsList) - multiset{name}
              && (forall k :: k in acc.passwords && k != name ==> k in a.passwords && a.passwords[k] == acc.passwords[k])
              && (forall k :: k in a.passwords ==> k in acc.passwords)
              && a.mail == acc.mail && a.masterPassword == acc.masterPassword
  {
    if name in acc.passwords && name in acc.passwordsList {
      RemoveFirstDropsFirstOccurrence(acc.passwordsList, name);
    }
  }

  /**
   * safe_changed_data with a new name: the old name leaves the list and the
   * map, the new name is appended, and the entry is rebuilt with only name,
   * password, url, text and the history; the date of last change is then set.
   */
  function RenameEntry(acc: Account, oldName: string, name: string, url: string, notes: string,
                       password: string, timestamp: string): Result<Account, StoreError>
  {
    if oldName !in acc.passwords then Failure(KeyError(oldName))
    else if oldName !in acc.passwordsList then Failure(ValueError(oldName))
    else
      var history := AppendIfAbsent(acc.passwords[oldName].oldPasswords, password);
      var entry := Entry(name, password, url, notes, history, None, Some(timestamp));
      Success(acc.(passwordsList := RemoveFirst(acc.passwordsList, oldName) + [name],
                   passwords := (acc.passwords - {oldName})[name := entry]))
  }

  lemma RenameEntryMoves(acc: Account, oldName: string, name: string, url: string, notes: string,
                         password: string, timestamp: string)
    ensures RenameEntry(acc, oldName, name, url, notes, password, timestamp).Success?
        <==> oldName in acc.passwords && oldName in acc.passwordsList
    ensures RenameEntry(acc, oldName, name, url, notes, password, timestamp).Success? ==>
              var a := RenameEntry(acc, oldName, name, url, notes, password, timestamp).value;
              var old_ := acc.passwords[oldName];
              && name in a.passwords
              && a.passwords[name] == Entry(name, password, url, notes,
                                            AppendIfAbsent(old_.oldPasswords, password), None, Some(timestamp))
              && (oldName != name ==> oldName !in a.passwords)
              && multiset(a.passwordsList) == multiset(acc.passwordsList) - multiset{oldName} + multiset{name}
              && a.passwordsList[|a.passwordsList| - 1] == name
              && (forall k :: k in acc.passwords && k != oldName && k != name
                    ==> k in a.passwords && a.passwords[k] == acc.passwords[k])
  {
    if oldName in acc.passwords && oldName in acc.passwordsList {
      RemoveFirstDropsFirstOccurrence(acc.passwordsList, oldName);
    }
  }

  /**
   * safe_changed_data under the same name: url, text and password are
   * overwritten, the history grows by the password unless it is in it, and
   * the date of last change is set.
   */
  function EditEntry(acc: Account, name: string, url: string, notes: string,
                     password: string, timestamp: string): Result<Account, StoreError>
  {
    if name !in acc.passwords then Failure(KeyError(name))
    else
      var e := acc.passwords[name];
      Success(acc.(passwords := acc.passwords[name := e.(url := url, text := notes, password := password,
                                                          oldPasswords := AppendIfAbsent(e.oldPasswords, password),
                                                          lastChange := Some(timestamp))]))
  }

  lemma EditEntryTouchesOnlyItsFields(acc: Account, name: string, url: string, notes: string,
                                      password: string, timestamp: string)
    ensures EditEntry(acc, name, url, notes, password, timestamp).Success? <==> name in acc.passwords
    ensures EditEntry(acc, name, url, notes, password, timestamp).Success? ==>
              var a := EditEntry(acc, name, url, notes, password, timestamp).value;
              var e, e' := acc.passwords[name], a.passwords[name];
              && a.passwordsList == acc.passwordsList
              && a.passwords.Keys == acc.passwords.Keys
              && e'.name == e.name && e'.firstAccess == e.firstAccess
              && e'.url == url && e'.text == notes && e'.password == password
              && e'.lastChange == Some(timestamp)
              && e'.oldPasswords[..|e.oldPasswords|] == e.oldPasswords && password in e'.oldPasswords
              && (forall k :: k in acc.passwords && k != name ==> a.passwords[k] == acc.passwords[k])
  {
    if name in acc.passwords {
      AppendIfAbsentExtends(acc.passwords[name].oldPasswords, password);
    }
  }

  /** safe_register_data: a fresh record with the hashed master password and no entries. */
  function FreshAccount(mail: string, hashedPassword: string): Account {
    Account(mail, hashedPassword, [], map[])
  }

  /* ---------- the list mirrors the map ---------- */

  /**
   * What the password list screen relies on: it looks every listed name up
   * in the map, so each listed name needs an entry; each entry is listed, and
   * no name is listed twice.
   */
  ghost predicate Consistent(acc: Account) {
    && (forall i, j :: 0 <= i < j < |acc.passwordsList| ==> acc.passwordsList[i] != acc.passwordsList[j])
    && (forall n :: n in acc.passwordsList <==> n in acc.passwords)
  }

  /** Adding under a name that is already listed lists it twice. */
  lemma AddExistingNameBreaksConsistency(acc: Account, entry: Entry, name: string)
    requires Consistent(acc) && name in acc.passwords
    ensures !Consistent(AddEntry(acc, map[name := entry], name))
  {
    var a := AddEntry(acc, map[name := entry], name);
    var i := IndexOf(acc.passwordsList, name);
    assert a.passwordsList[i] == name == a.passwordsList[|acc.passwordsList|];
  }

  /**
   * Then deleting it leaves the name listed without an entry, so the next
   * lookup of the listed names raises KeyError.
   */
  lemma DuplicateThenDeleteLeavesDanglingName(acc: Account, entry: Entry, name: string)
    requires Consistent(acc) && name in acc.passwords
    ensures DeleteEntry(AddEntry(acc, map[name := entry], name), name).Success?
    ensures var a := DeleteEntry(AddEntry(acc, map[name := entry], name), name).value;
            name in a.passwordsList && name !in a.passwords
  {
    var added := AddEntry(acc, map[name := entry], name);
    assert added.passwordsList[|acc.passwordsList|] == name;
    RemoveFirstDropsFirstOccurrence(added.passwordsList, name);
    var i := IndexOf(added.passwordsList, name);
    assert i < |acc.passwordsList| by {
      var k := IndexOf(acc.passwordsList, name);
      assert added.passwordsList[k] == name;
    }
    var rest := RemoveFirst(added.passwordsList, name);
    assert rest[|rest| - 1] == name;
  }

  /** The addition the list screen needs: the name is appended only when it is not listed yet. */
  function AddEntryChecked(acc: Account, name: string, entry: Entry): Account {
    acc.(passwordsList := if name in acc.passwordsList then acc.passwordsList else acc.passwordsList + [name],
         passwords := acc.passwords[name := entry])
  }

  lemma AddEntryCheckedKeepsConsistency(acc: Account, name: string, entry: Entry)
    requires Consistent(acc)
    ensures Consistent(AddEntryChecked(acc, name, entry))
    ensures var a := AddEntryChecked(acc, name, entry);
            name in a.passwords && a.passwords[name] == entry
            && (forall k :: k in acc.passwords && k != name ==> k in a.passwords && a.passwords[k] == acc.passwords[k])
  {
  }

  /** Without duplicates, dropping the one occurrence of x leaves the other names, each once. */
  lemma DropOccurrenceOfUnique(s: seq<string>, i: nat)
    requires i < |s|
    requires forall a, b :: 0 <= a < b < |s| ==> s[a] != s[b]
    ensures var r := s[..i] + s[i + 1..];
            && (forall a, b :: 0 <= a < b < |r| ==> r[a] != r[b])
            && (forall n :: n in r <==> n in s && n != s[i])
  {
    var r := s[..i] + s[i + 1..];
    assert |r| == |s| - 1;
    assert forall k :: 0 <= k < |r| ==> r[k] == if k < i then s[k] else s[k + 1];
    forall n | n in s && n != s[i] ensures n in r {
      var k :| 0 <= k < |s| && s[k] == n;
      if k < i { assert r[k] == n; } else { assert r[k - 1] == n; }
    }
  }

  lemma DeleteEntryKeepsConsistency(acc: Account, name: string)
    requires Consistent(acc) && DeleteEntry(acc, name).Success?
    ensures Consistent(DeleteEntry(acc, name).value)
  {
    var s := acc.passwordsList;
    RemoveFirstDropsFirstOccurrence(s, name);
    DropOccurrenceOfUnique(s, IndexOf(s, name));
  }

  /** A rename keeps the list and the map in step when the new name is free or unchanged. */
  lemma RenameEntryKeepsConsistency(acc: Account, oldName: string, name: string, url: string, notes: string,
                                    password: string, timestamp: string)
    requires Consistent(acc) && RenameEntry(acc, oldName, name, url, notes, password, timestamp).Success?
    requires name == oldName || name !in acc.passwords
    ensures Consistent(RenameEntry(acc, oldName, name, url, notes, password, timestamp).value)
  {
    var s := acc.passwordsList;
    RemoveFirstDropsFirstOccurrence(s, oldName);
    DropOccurrenceOfUnique(s, IndexOf(s, oldName));
    var r := RemoveFirst(s, oldName);
    assert name !in r;
    var t := r + [name];
    forall a, b | 0 <= a < b < |t| ensures t[a] != t[b] {
      if b == |r| { assert t[a] == r[a]; }
    }
  }

  lemma EditEntryKeepsConsistency(acc: Account, name: string, url: string, notes: string,
                                  password: string, timestamp: string)
    requires Consistent(acc) && EditEntry(acc, name, url, notes, password, timestamp).Success?
    ensures Consistent(EditEntry(acc, name, url, notes, password, timestamp).value)
  {
  }

  /* ---------- the table ---------- */

  /** The "accounts" object of data.json. */
  class DataFile {
    var accounts: map<string, Account>

    constructor (accounts: map<string, Account>)
      ensures this.accounts == accounts
    {
      this.accounts := accounts;
    }

    /** safe_new_password_data (source/password.py, source/password_manager.py). */
    method SafeNewPasswordData(newData: map<string, Entry>, mail: string, name: string)
      returns (err: Option<StoreError>)
      modifies this
      ensures mail !in old(accounts) ==> err == Some(KeyError(mail)) && accounts == old(accounts)
      ensures mail in old(accounts) ==>
                err == None && accounts == old(accounts)[mail := AddEntry(old(accounts)[mail], newData, name)]
    {
      if mail !in accounts {
        return Some(KeyError(mail));
      }
      var acc := accounts[mail];
      var list := acc.passwordsList + [name];
      var entries := acc.passwords + newData;
      accounts := accounts[mail := acc.(passwordsList := list, passwords := entries)];
      return None;
    }

    /** delete_password (source/password.py, source/password_manager.py). */
    method DeletePassword(mail: string, name: string) returns (err: Option<StoreError>)
      modifies this
      ensures mail !in old(accounts) ==> err == Some(KeyError(mail)) && accounts == old(accounts)
      ensures mail in old(accounts) ==>
                match DeleteEntry(old(accounts)[mail], name)
                case Failure(e) => err == Some(e) && accounts == old(accounts)
                case Success(a) => err == None && accounts == old(accounts)[mail := a]
    {
      if mail !in accounts {
        return Some(KeyError(mail));
      }
      var acc := accounts[mail];
      if name !in acc.passwords {
        return Some(KeyError(name));
      }
      var entries := acc.passwords - {name};
      if name !in acc.passwordsList {
        return Some(ValueError(name));
      }
      var list := RemoveFirst(acc.passwordsList, name);
      accounts := accounts[mail := acc.(passwords := entries, passwordsList := list)];
      return None;
    }

    /**
     * safe_changed_data (source/data.py, source/password_manager.py). The
     * timestamp stands for datetime.now() formatted as "%d.%m.%Y %H:%M". On a
     * rename the history is copied element by element into the new entry.
     */
    method SafeChangedData(mail: string, name: string, url: string, notes: string, password: string,
                           oldName: string, isNameChanged: bool, timestamp: string)
      returns (err: Option<StoreError>)
      modifies this
      ensures mail !in old(accounts) ==> err == Some(KeyError(mail)) && accounts == old(accounts)
      ensures mail in old(accounts) ==>
                var change := if isNameChanged
                              then RenameEntry(old(accounts)[mail], oldName, name, url, notes, password, timestamp)
                              else EditEntry(old(accounts)[mail], name, url, notes, password, timestamp);
                match change
                case Failure(e) => err == Some(e) && accounts == old(accounts)
                case Success(a) => err == None && accounts == old(accounts)[mail := a]
    {
      if mail !in accounts {
        return Some(KeyError(mail));
      }
      var acc := accounts[mail];
      var entries := acc.passwords;
      var list := acc.passwordsList;
      if isNameChanged {
        if oldName !in entries {
          return Some(KeyError(oldName));
        }
        var oldHistory := entries[oldName].oldPasswords;
        if oldName !in list {
          return Some(ValueError(oldName));
        }
        list := RemoveFirst(list, oldName) + [name];
        var history := [];
        var i := 0;
        while i < |oldHistory|
          invariant 0 <= i <= |oldHistory|
          invariant history == oldHistory[..i]
        {
          history := history + [oldHistory[i]];
          i := i + 1;
        }
        if password !in oldHistory {
          history := history + [password];
        }
        assert history == AppendIfAbsent(oldHistory, password);
        entries := entries - {oldName};
        ghost var kept := entries;
        entries := entries[name := Entry(name, password, url, notes, history, None, None)];
        assert entries[name := entries[name].(lastChange := Some(timestamp))]
            == kept[name := Entry(name, password, url, notes, history, None, Some(timestamp))];
      } else {
        if name !in entries {
          return Some(KeyError(name));
        }
        var e := entries[name];
        e := e.(url := url);
        e := e.(text := notes);
        e := e.(password := password);
        if password !in e.oldPasswords {
          e := e.(oldPasswords := e.oldPasswords + [password]);
        }
        assert e == acc.passwords[name].(url := url, text := notes, password := password,
                                         oldPasswords := AppendIfAbsent(acc.passwords[name].oldPasswords, password));
        entries := entries[name := e];
        assert entries[name := entries[name].(lastChange := Some(timestamp))]
            == acc.passwords[name := e.(lastChange := Some(timestamp))];
      }
      entries := entries[name := entries[name].(lastChange := Some(timestamp))];
      assert isNameChanged ==>
        RenameEntry(acc, oldName, name, url, notes, password, timestamp)
        == Success(acc.(passwords := entries, passwordsList := list));
      assert !isNameChanged ==>
        EditEntry(acc, name, url, notes, password, timestamp)
        == Success(acc.(passwords := entries, passwordsList := list));
      accounts := accounts[mail := acc.(passwords := entries, passwordsList := list)];
      return None;
    }

    /** safe_register_data of source/password_manager.py; `hash` stands for SHA-256 as a hex string. */
    method SafeRegisterData(mail: string, password: string, hash: string -> string)
      modifies this
      ensures accounts == old(accounts)[mail := FreshAccount(mail, hash(password))]
    {
      var hashed := hash(password);
      var record := Account(mail, hashed, [], map[]);
      accounts := accounts + map[mail := record];
    }

    /**
     * safe_register_data of source/data.py: hash_password is not imported
     * there, so the first statement raises NameError and nothing is written.
     */
    method SafeRegisterDataWithoutImport(mail: string, password: string) returns (err: Option<StoreError>)
      ensures err == Some(NameError("hash_password"))
    {
      return Some(NameError("hash_password"));
    }
  }

  /** Registering replaces the record of that mail only; every other account is kept. */
  lemma RegisterKeepsOtherAccounts(accounts: map<string, Account>, mail: string, hashed: string)
    ensures var a := accounts[mail := FreshAccount(mail, hashed)];
            && a[mail].passwordsList == [] && a[mail].passwords == map[]
            && a[mail].masterPassword == hashed && a[mail].mail == mail
            && a.Keys == accounts.Keys + {mail}
            && forall m :: m in accounts && m != mail ==> a[m] == accounts[m]
  {
  }
}
