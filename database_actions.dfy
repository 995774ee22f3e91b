/**
 * DatabaseActions: the controller behind the main window. It holds the open
 * password database, the list of account names the window shows and the
 * `localDatabaseDirty` flag, and it carries out the add, delete, edit,
 * import and properties actions. Every such action is gated by
 * `getLatestVersionOfDatabase`.
 *
 * The user's answers to dialogs, the search text, the outcome of a sync with
 * the remote database and the contents of the files read come in as
 * parameters. Lower-casing is a parameter too. A save is recorded as the URL
 * that `PasswordDatabasePersistence.save` would request.
 */
module Gui {
  import opened Wrappers
  import opened Accounts
  import opened JavaLib
  import opened Persistence
  import opened CsvMarshaller

  /** The exceptions `syncWithRemoteDatabase` can end in. */
  datatype SyncError = TransportFailure | NullPointer

  /** How a call of `syncWithRemoteDatabase` ends: it returns a boolean, or it raises an exception. */
  datatype SyncOutcome = Returned(synced: bool) | Raised(error: SyncError)

  /** An exception an action lets escape to its caller. */
  datatype ActionError =
    | SyncFailed(syncError: SyncError)
    | AccountDoesntExist(name: string)
    | IndexOutOfBounds(index: int)
    | LoadFailed(loadError: LoadError)

  /** How an action ends: normally, with an import problem shown in a message box, or with an exception. */
  datatype ActionOutcome = Done | ImportProblem(importError: ImportError) | Threw(error: ActionError)

  /**
   * `getLatestVersionOfDatabase`. A clean local copy counts as current. For a
   * dirty copy the user is asked whether to sync: yes gives the sync's result
   * (or its exception), no gives false. An action goes on only on
   * `Success(true)`.
   */
  function LatestVersionGate(dirty: bool, answerYes: bool, sync: SyncOutcome): (r: Result<bool, SyncError>)
    ensures r == Success(true) <==> !dirty || (answerYes && sync == Returned(true))
    ensures r.Failure? <==> dirty && answerYes && sync.Raised?
    ensures r.Failure? ==> r.error == sync.error
  {
    if !dirty then Success(true)
    else if !answerYes then Success(false)
    else match sync
      case Returned(b) => Success(b)
      case Raised(e) => Failure(e)
  }

  /** `filter`'s test: a name is kept when the filter is empty or occurs in the lower-cased name. */
  predicate Matches(name: string, filter: string, lower: string -> string)
  {
    filter == "" || IndexOf(lower(name), filter) != -1
  }

  /** The names `filter` puts in the list view, in the order of `names`. */
  function KeepMatching(names: seq<string>, filter: string, lower: string -> string): seq<string>
  {
    if |names| == 0 then []
    else
      var kept := KeepMatching(names[..|names| - 1], filter, lower);
      if Matches(names[|names| - 1], filter, lower) then kept + [names[|names| - 1]] else kept
  }

  /** Filtering two lists one after the other is filtering each and concatenating: the order is kept. */
  lemma {:induction false} KeepMatchingAppend(xs: seq<string>, ys: seq<string>, filter: string, lower: string -> string)
    ensures KeepMatching(xs + ys, filter, lower) == KeepMatching(xs, filter, lower) + KeepMatching(ys, filter, lower)
  {
    if |ys| == 0 {
      assert xs + ys == xs;
    } else {
      var init := ys[..|ys| - 1];
      assert (xs + ys)[..|xs + ys| - 1] == xs + init;
      KeepMatchingAppend(xs, init, filter, lower);
    }
  }

  /** A name is in the filtered list exactly when it is in the list and matches. */
  lemma {:induction false} KeepMatchingMembers(names: seq<string>, filter: string, lower: string -> string)
    ensures forall x :: x in KeepMatching(names, filter, lower) <==> x in names && Matches(x, filter, lower)
  {
    if |names| > 0 {
      var init := names[..|names| - 1];
      KeepMatchingMembers(init, filter, lower);
      assert names == init + [names[|names| - 1]];
    }
  }

  /** Filtering again with the same filter changes nothing. */
  lemma {:induction false} KeepMatchingIdempotent(names: seq<string>, filter: string, lower: string -> string)
    ensures KeepMatching(KeepMatching(names, filter, lower), filter, lower) == KeepMatching(names, filter, lower)
  {
    if |names| > 0 {
      var init, last := names[..|names| - 1], names[|names| - 1];
      KeepMatchingIdempotent(init, filter, lower);
      var kept := KeepMatching(init, filter, lower);
      if Matches(last, filter, lower) {
        KeepMatchingAppend(kept, [last], filter, lower);
        assert KeepMatching([last], filter, lower) == [last] by {
          assert [last][..0] == [];
        }
      }
    }
  }

  /** An empty filter keeps every name. */
  lemma {:induction false} KeepMatchingEmptyFilter(names: seq<string>, lower: string -> string)
    ensures KeepMatching(names, "", lower) == names
  {
    if |names| > 0 {
      KeepMatchingEmptyFilter(names[..|names| - 1], lower);
    }
  }

  /** The empty filter needs no test of its own: the empty string occurs at index 0 of every name. */
  lemma EmptyFilterTestRedundant(name: string, filter: string, lower: string -> string)
    ensures Matches(name, filter, lower) <==> IndexOf(lower(name), filter) != -1
  {
    IndexOfFacts(lower(name), filter);
    if filter == "" {
      assert SubstringAt(lower(name), filter, 0);
    }
  }

  /** The account name the list view has selected, or -1 when nothing is selected (`indexOf(null)`). */
  function IndexOfSelected(names: seq<string>, selected: Option<string>): int
  {
    if selected.None? then -1 else IndexOfElement(names, selected.value)
  }

  /**
   * The database effect of an edit: the old name is deleted and the edited
   * account added. When a rename moves away from the authentication entry,
   * the entry follows the new name.
   */
  function Edited(db: PasswordDatabase, accountName: string, edited: Account): PasswordDatabase
  {
    var accounts := Put(Remove(db.accounts, accountName), edited);
    if edited.name != accountName && accountName == db.options.authDBEntry
    then PasswordDatabase(accounts, db.options.(authDBEntry := edited.name))
    else PasswordDatabase(accounts, db.options)
  }

  /** The options' authentication entry is empty or names an account of the database. */
  predicate AuthEntryResolves(db: PasswordDatabase)
  {
    db.options.authDBEntry == "" || Lookup(db.accounts, db.options.authDBEntry).Some?
  }

  /**
   * After an edit the edited account is stored under its name. A rename
   * leaves the old name unused. Every other name looks up as before. The
   * remote location is kept. An authentication entry naming the edited
   * account follows it to its new name, any other entry is left as it was,
   * and an entry that named an account still does.
   */
  lemma EditedFacts(db: PasswordDatabase, accountName: string, edited: Account)
    ensures Lookup(Edited(db, accountName, edited).accounts, edited.name) == Some(edited)
    ensures edited.name != accountName ==> Lookup(Edited(db, accountName, edited).accounts, accountName) == None
    ensures forall m :: m != accountName && m != edited.name ==>
                        Lookup(Edited(db, accountName, edited).accounts, m) == Lookup(db.accounts, m)
    ensures Edited(db, accountName, edited).options.remoteLocation == db.options.remoteLocation
    ensures Distinct(Names(db.accounts)) ==> Distinct(Names(Edited(db, accountName, edited).accounts))
    ensures AuthEntryResolves(db) ==> AuthEntryResolves(Edited(db, accountName, edited))
    ensures db.options.authDBEntry == accountName ==>
              Edited(db, accountName, edited).options.authDBEntry == edited.name &&
              Lookup(Edited(db, accountName, edited).accounts, Edited(db, accountName, edited).options.authDBEntry) == Some(edited)
    ensures db.options.authDBEntry != accountName ==> Edited(db, accountName, edited).options == db.options
  {
    var removed := Remove(db.accounts, accountName);
    RemoveLookup(db.accounts, accountName);
    PutLookup(removed, edited);
    if Distinct(Names(db.accounts)) {
      RemoveDistinct(db.accounts, accountName);
      PutDistinct(removed, edited);
    }
  }

  /**
   * The import loop's selection, over the first records of the file. A record
   * whose name is new is taken. For a record whose name the database already
   * holds, answer 1 ("Keep Existing") skips it, answer 2 ("Cancel") cancels
   * the import (`None`), and any other answer takes it.
   */
  function SelectImports(inFile: seq<Account>, existing: seq<Account>, answer: nat -> int): Option<seq<Account>>
  {
    if |inFile| == 0 then Some([])
    else match SelectImports(inFile[..|inFile| - 1], existing, answer)
      case None => None
      case Some(picked) =>
        var i := |inFile| - 1;
        if Lookup(existing, inFile[i].name).None? then Some(picked + [inFile[i]])
        else if answer(i) == 1 then Some(picked)
        else if answer(i) == 2 then None
        else Some(picked + [inFile[i]])
  }

  /** Once the import is cancelled it stays cancelled. */
  lemma {:induction false} SelectImportsCancelPersists(inFile: seq<Account>, existing: seq<Account>, answer: nat -> int, k: nat)
    requires k <= |inFile| && SelectImports(inFile[..k], existing, answer).None?
    ensures SelectImports(inFile, existing, answer).None?
    decreases |inFile| - k
  {
    if k < |inFile| {
      assert inFile[..k + 1][..k] == inFile[..k];
      SelectImportsCancelPersists(inFile, existing, answer, k + 1);
    } else {
      assert inFile[..k] == inFile;
    }
  }

  /**
   * The import is cancelled exactly when some record clashes with an
   * existing name and was answered "Cancel". Otherwise every record with a
   * new name is taken, every clashing record not answered "Keep Existing" is
   * taken, and only records of the file are taken.
   */
  lemma {:induction false} SelectImportsFacts(inFile: seq<Account>, existing: seq<Account>, answer: nat -> int)
    ensures SelectImports(inFile, existing, answer).None? <==>
            exists i :: 0 <= i < |inFile| && Lookup(existing, inFile[i].name).Some? && answer(i) == 2
    ensures SelectImports(inFile, existing, answer).Some? ==>
            (forall a :: a in SelectImports(inFile, existing, answer).value ==> a in inFile) &&
            forall i :: 0 <= i < |inFile| && (Lookup(existing, inFile[i].name).None? || answer(i) != 1) ==>
                        inFile[i] in SelectImports(inFile, existing, answer).value
  {
    if |inFile| > 0 {
      var init := inFile[..|inFile| - 1];
      var i := |inFile| - 1;
      SelectImportsFacts(init, existing, answer);
      assert forall j :: 0 <= j < |init| ==> init[j] == inFile[j];
      if SelectImports(init, existing, answer).None? {
        var j :| 0 <= j < |init| && Lookup(existing, init[j].name).Some? && answer(j) == 2;
        assert Lookup(existing, inFile[j].name).Some? && answer(j) == 2;
      }
    }
  }

  /** Record `i` of the file goes into the import: its name is new, or the clash was not answered "Keep Existing". */
  predicate Taken(inFile: seq<Account>, existing: seq<Account>, answer: nat -> int, i: nat)
    requires i < |inFile|
  {
    Lookup(existing, inFile[i].name).None? || answer(i) != 1
  }

  /**
   * `picked` is the records of the file at the increasing positions `idx`,
   * and those positions are exactly the records that are taken.
   */
  predicate SelectedAt(inFile: seq<Account>, existing: seq<Account>, answer: nat -> int, idx: seq<nat>, picked: seq<Account>)
  {
    |idx| == |picked| &&
    (forall k :: 0 <= k < |idx| ==> idx[k] < |inFile| && picked[k] == inFile[idx[k]]) &&
    (forall k, l :: 0 <= k < l < |idx| ==> idx[k] < idx[l]) &&
    (forall i :: 0 <= i < |inFile| ==> (i in idx <==> Taken(inFile, existing, answer, i)))
  }

  /**
   * A selection that is not cancelled holds each taken record once, in file
   * order, and no other: a clashing record answered "Keep Existing" is left out.
   */
  lemma {:induction false} SelectImportsOrder(inFile: seq<Account>, existing: seq<Account>, answer: nat -> int)
    requires SelectImports(inFile, existing, answer).Some?
    ensures exists idx :: SelectedAt(inFile, existing, answer, idx, SelectImports(inFile, existing, answer).value)
  {
    if |inFile| == 0 {
      assert SelectedAt(inFile, existing, answer, [], []);
    } else {
      var init, i := inFile[..|inFile| - 1], |inFile| - 1;
      var picked0 := SelectImports(init, existing, answer).value;
      SelectImportsOrder(init, existing, answer);
      var idx0 :| SelectedAt(init, existing, answer, idx0, picked0);
      var picked := SelectImports(inFile, existing, answer).value;
      if Taken(inFile, existing, answer, i) {
        SelectedExtend(inFile, existing, answer, idx0, picked0);
        assert picked == picked0 + [inFile[i]];
      } else {
        SelectedSkip(inFile, existing, answer, idx0, picked0);
        assert picked == picked0;
      }
    }
  }

  /** A taken last record extends the selection of the records before it. */
  lemma SelectedExtend(inFile: seq<Account>, existing: seq<Account>, answer: nat -> int, idx0: seq<nat>, picked0: seq<Account>)
    requires |inFile| > 0 && Taken(inFile, existing, answer, |inFile| - 1)
    requires SelectedAt(inFile[..|inFile| - 1], existing, answer, idx0, picked0)
    ensures SelectedAt(inFile, existing, answer, idx0 + [|inFile| - 1], picked0 + [inFile[|inFile| - 1]])
  {
    var init, i := inFile[..|inFile| - 1], |inFile| - 1;
    var idx, picked := idx0 + [i], picked0 + [inFile[i]];
    forall j | 0 <= j < i ensures (j in idx <==> Taken(inFile, existing, answer, j)) {
      assert init[j] == inFile[j];
      assert Taken(init, existing, answer, j) == Taken(inFile, existing, answer, j);
    }
    assert idx[|idx0|] == i;
  }

  /** A skipped last record leaves the selection of the records before it. */
  lemma SelectedSkip(inFile: seq<Account>, existing: seq<Account>, answer: nat -> int, idx0: seq<nat>, picked0: seq<Account>)
    requires |inFile| > 0 && !Taken(inFile, existing, answer, |inFile| - 1)
    requires SelectedAt(inFile[..|inFile| - 1], existing, answer, idx0, picked0)
    ensures SelectedAt(inFile, existing, answer, idx0, picked0)
  {
    var init, i := inFile[..|inFile| - 1], |inFile| - 1;
    forall j | 0 <= j < i ensures (j in idx0 <==> Taken(inFile, existing, answer, j)) {
      assert init[j] == inFile[j];
      assert Taken(init, existing, answer, j) == Taken(inFile, existing, answer, j);
    }
    forall k | 0 <= k < |idx0| ensures picked0[k] == inFile[idx0[k]] {
      assert init[idx0[k]] == inFile[idx0[k]];
    }
  }

  /** A batch naming no account `n` has no last account named `n`. */
  lemma {:induction false} LastNamedAbsent(s: seq<Account>, n: string)
    requires forall k :: 0 <= k < |s| ==> s[k].name != n
    ensures LastNamed(s, n).None?
  {
    if |s| > 0 {
      LastNamedAbsent(s[..|s| - 1], n);
    }
  }

  /**
   * An existing account whose every record in the file was answered "Keep
   * Existing" is the same after the import as before it.
   */
  lemma KeepExistingSurvives(inFile: seq<Account>, existing: seq<Account>, answer: nat -> int, n: string)
    requires SelectImports(inFile, existing, answer).Some? && Lookup(existing, n).Some?
    requires forall i :: 0 <= i < |inFile| && inFile[i].name == n ==> answer(i) == 1
    ensures Lookup(UpsertAll(existing, SelectImports(inFile, existing, answer).value), n) == Lookup(existing, n)
  {
    var picked := SelectImports(inFile, existing, answer).value;
    SelectImportsOrder(inFile, existing, answer);
    var idx :| SelectedAt(inFile, existing, answer, idx, picked);
    forall k | 0 <= k < |picked| ensures picked[k].name != n {
      assert idx[k] in idx;
    }
    LastNamedAbsent(picked, n);
    UpsertAllFacts(existing, picked);
  }

  /** The controller's state; the window, the dialogs and the file monitor are not part of it. */
  class DatabaseActions {
    /** The open database. */
    var database: PasswordDatabase
    /** The names of the accounts, as the list view is built from them. */
    var accountNames: seq<string>
    var localDatabaseDirty: bool
    var databaseNeedsReload: bool
    /** The URL requested by each save so far, oldest first. */
    var savedUrls: seq<string>

    /** Account names in the database are distinct: they are the keys of its map. */
    ghost predicate Valid()
      reads this
    {
      Distinct(Names(database.accounts))
    }

    /** The name list holds exactly the database's account names, each as often. */
    ghost predicate NamesInSync()
      reads this
    {
      InSync(accountNames, database.accounts)
    }

    /** A controller whose database is empty and whose local copy counts as dirty. */
    constructor ()
      ensures database == PasswordDatabase([], DefaultOptions) && accountNames == []
      ensures localDatabaseDirty && !databaseNeedsReload && savedUrls == []
      ensures Valid() && NamesInSync()
    {
      database := PasswordDatabase([], DefaultOptions);
      accountNames := [];
      localDatabaseDirty := true;
      databaseNeedsReload := false;
      savedUrls := [];
    }

    /** `setLocalDatabaseDirty`: sets the flag; the rest only enables menu items. */
    method SetLocalDatabaseDirty(dirty: bool)
      modifies this
      ensures localDatabaseDirty == dirty
      ensures database == old(database) && accountNames == old(accountNames)
      ensures databaseNeedsReload == old(databaseNeedsReload) && savedUrls == old(savedUrls)
    {
      localDatabaseDirty := dirty;
    }

    /** `saveDatabase`: posts the database and marks the local copy dirty. */
    method SaveDatabase()
      modifies this
      ensures savedUrls == old(savedUrls) + [SaveUrl(database.accounts)]
      ensures localDatabaseDirty
      ensures database == old(database) && accountNames == old(accountNames)
      ensures databaseNeedsReload == old(databaseNeedsReload)
    {
      var url := Save(database.accounts);
      savedUrls := savedUrls + [url];
      SetLocalDatabaseDirty(true);
    }

    /** `getAccountNames`: the account names in the database's order. */
    method GetAccountNames() returns (names: seq<string>)
      ensures |names| == |database.accounts|
      ensures forall i :: 0 <= i < |names| ==> names[i] == database.accounts[i].name
    {
      var accounts := database.accounts;
      names := [];
      var i := 0;
      while i < |accounts|
        invariant 0 <= i <= |accounts|
        invariant |names| == i
        invariant forall k :: 0 <= k < i ==> names[k] == accounts[k].name
      {
        names := names + [accounts[i].name];
        i := i + 1;
      }
    }

    /**
     * `filter`: the names of `accountNames` that match the lower-cased search
     * text, in list order.
     */
    method Filter(searchText: string, lower: string -> string) returns (filtered: seq<string>)
      ensures filtered == KeepMatching(accountNames, lower(searchText), lower)
    {
      var filterStr := lower(searchText);
      filtered := [];
      var i := 0;
      while i < |accountNames|
        invariant 0 <= i <= |accountNames|
        invariant filtered == KeepMatching(accountNames[..i], filterStr, lower)
      {
        var accountName := accountNames[i];
        assert accountNames[..i + 1][..i] == accountNames[..i];
        if filterStr == "" || IndexOf(lower(accountName), filterStr) != -1 {
          filtered := filtered + [accountName];
        }
        i := i + 1;
      }
      assert accountNames[..i] == accountNames;
    }

    /** `doOpenDatabaseActions`: marks the copy dirty, clears the reload flag and rebuilds the name list. */
    method DoOpenDatabaseActions()
      modifies this
      ensures accountNames == Names(database.accounts)
      ensures localDatabaseDirty && !databaseNeedsReload
      ensures database == old(database) && savedUrls == old(savedUrls)
      ensures NamesInSync()
    {
      SetLocalDatabaseDirty(true);
      databaseNeedsReload := false;
      accountNames := GetAccountNames();
    }

    /** `newDatabase`: an empty database with default options, opened. */
    method NewDatabase()
      modifies this
      ensures database == PasswordDatabase([], DefaultOptions) && accountNames == []
      ensures localDatabaseDirty && !databaseNeedsReload && savedUrls == old(savedUrls)
      ensures Valid() && NamesInSync()
    {
      database := PasswordDatabase([], DefaultOptions);
      accountNames := [];
      DoOpenDatabaseActions();
    }

    /**
     * `openDatabase(databaseFilename, password)`: loads the database. The file
     * name and the password are not used, and the open actions are not run,
     * so the name list is left as it was.
     */
    method OpenDatabaseWithPassword(lines: seq<string>) returns (r: ActionOutcome)
      modifies this
      ensures LoadAccounts(Concat(lines)).Failure? ==>
                r == Threw(LoadFailed(LoadAccounts(Concat(lines)).error)) && unchanged(this)
      ensures LoadAccounts(Concat(lines)).Success? ==>
                r == Done &&
                database == PasswordDatabase(LoadAccounts(Concat(lines)).value, DefaultOptions) &&
                accountNames == old(accountNames) && localDatabaseDirty == old(localDatabaseDirty) &&
                databaseNeedsReload == old(databaseNeedsReload) && savedUrls == old(savedUrls)
      ensures r == Done ==> Valid()
    {
      var loaded := Load(lines);
      if loaded.Failure? {
        return Threw(LoadFailed(loaded.error));
      }
      LoadAccountsFacts(Concat(lines));
      database := loaded.value;
      r := Done;
    }

    /** `openDatabase()`: loads the database and runs the open actions. */
    method OpenDatabase(lines: seq<string>) returns (r: ActionOutcome)
      modifies this
      ensures LoadAccounts(Concat(lines)).Failure? ==>
                r == Threw(LoadFailed(LoadAccounts(Concat(lines)).error)) && unchanged(this)
      ensures LoadAccounts(Concat(lines)).Success? ==>
                r == Done &&
                database == PasswordDatabase(LoadAccounts(Concat(lines)).value, DefaultOptions) &&
                accountNames == Names(database.accounts) && localDatabaseDirty &&
                !databaseNeedsReload && savedUrls == old(savedUrls)
      ensures r == Done ==> Valid() && NamesInSync()
    {
      var loaded := Load(lines);
      if loaded.Failure? {
        return Threw(LoadFailed(loaded.error));
      }
      LoadAccountsFacts(Concat(lines));
      database := loaded.value;
      DoOpenDatabaseActions();
      r := Done;
    }

    /**
     * `addAccount`: once the gate opens and the dialog is confirmed, the
     * account replaces any account of its name, the database is saved and the
     * name is appended to the name list. The name list stays in sync when the
     * name is new to it; the account dialog's own check for this is not part
     * of the model.
     */
    method AddAccount(answerYes: bool, sync: SyncOutcome, okClicked: bool, account: Account) returns (r: ActionOutcome)
      requires Valid()
      modifies this
      ensures Valid()
      ensures old(localDatabaseDirty) ==> localDatabaseDirty
      ensures LatestVersionGate(old(localDatabaseDirty), answerYes, sync).Failure? ==>
                r == Threw(SyncFailed(sync.error)) && unchanged(this)
      ensures LatestVersionGate(old(localDatabaseDirty), answerYes, sync) == Success(false) ==> r == Done && unchanged(this)
      ensures LatestVersionGate(old(localDatabaseDirty), answerYes, sync) == Success(true) && !okClicked ==>
                r == Done && unchanged(this)
      ensures LatestVersionGate(old(localDatabaseDirty), answerYes, sync) == Success(true) && okClicked ==>
                r == Done &&
                database == old(database).(accounts := Upsert(old(database.accounts), account)) &&
                accountNames == old(accountNames) + [account.name] &&
                savedUrls == old(savedUrls) + [SaveUrl(database.accounts)] &&
                localDatabaseDirty && databaseNeedsReload == old(databaseNeedsReload)
      ensures old(NamesInSync()) && account.name !in old(accountNames) ==> NamesInSync()
    {
      var gate := LatestVersionGate(localDatabaseDirty, answerYes, sync);
      if gate.Failure? {
        return Threw(SyncFailed(gate.error));
      }
      if !gate.value || !okClicked {
        return Done;
      }
      var before := database.accounts;
      RemoveDistinct(before, account.name);
      PutDistinct(Remove(before, account.name), account);
      if NamesInSync() && account.name !in accountNames {
        AddKeepsSync(accountNames, before, account);
      }
      database := database.(accounts := Upsert(before, account));
      SaveDatabase();
      accountNames := accountNames + [account.name];
      r := Done;
    }

    /**
     * `deleteAccount`: once the gate opens and the user confirms, the selected
     * name is removed from the name list and its account from the database,
     * and the database is saved. With nothing selected, or a selection absent
     * from the list, `indexOf` gives -1 and `remove(-1)` throws before
     * anything changes.
     */
    method DeleteAccount(answerYes: bool, sync: SyncOutcome, selected: Option<string>, confirmed: bool) returns (r: ActionOutcome)
      requires Valid()
      modifies this
      ensures Valid()
      ensures old(localDatabaseDirty) ==> localDatabaseDirty
      ensures LatestVersionGate(old(localDatabaseDirty), answerYes, sync).Failure? ==>
                r == Threw(SyncFailed(sync.error)) && unchanged(this)
      ensures LatestVersionGate(old(localDatabaseDirty), answerYes, sync) == Success(false) ==> r == Done && unchanged(this)
      ensures LatestVersionGate(old(localDatabaseDirty), answerYes, sync) == Success(true) && !confirmed ==>
                r == Done && unchanged(this)
      ensures LatestVersionGate(old(localDatabaseDirty), answerYes, sync) == Success(true) && confirmed &&
              IndexOfSelected(old(accountNames), selected) == -1 ==>
                r == Threw(IndexOutOfBounds(-1)) && unchanged(this)
      ensures LatestVersionGate(old(localDatabaseDirty), answerYes, sync) == Success(true) && confirmed &&
              IndexOfSelected(old(accountNames), selected) != -1 ==>
                r == Done && selected.Some? &&
                accountNames == RemoveAt(old(accountNames), IndexOfSelected(old(accountNames), selected)) &&
                database == old(database).(accounts := Remove(old(database.accounts), selected.value)) &&
                savedUrls == old(savedUrls) + [SaveUrl(database.accounts)] &&
                localDatabaseDirty && databaseNeedsReload == old(databaseNeedsReload)
      ensures old(NamesInSync()) ==> NamesInSync()
    {
      var gate := LatestVersionGate(localDatabaseDirty, answerYes, sync);
      if gate.Failure? {
        return Threw(SyncFailed(gate.error));
      }
      if !gate.value || !confirmed {
        return Done;
      }
      var i := IndexOfSelected(accountNames, selected);
      if i == -1 {
        return Threw(IndexOutOfBounds(-1));
      }
      var name := selected.value;
      var before := database.accounts;
      RemoveDistinct(before, name);
      if NamesInSync() {
        DeleteKeepsSync(accountNames, before, i);
      }
      accountNames := RemoveAt(accountNames, i);
      database := database.(accounts := Remove(before, name));
      SaveDatabase();
      r := Done;
    }

    /**
     * `editAccount`: once the gate opens, an account that does not exist is
     * an error. When the dialog is confirmed with changes, the database takes
     * the edit (see `Edited`). A rename also replaces the old name in the
     * name list by the new one, at the end; if the old name is missing from
     * the list, `remove(-1)` throws after the database was changed and before
     * it is saved. The database is then saved.
     */
    method EditAccount(answerYes: bool, sync: SyncOutcome, accountName: string, okClicked: bool, changed: bool, edited: Account)
      returns (r: ActionOutcome)
      requires Valid()
      modifies this
      ensures Valid()
      ensures old(localDatabaseDirty) ==> localDatabaseDirty
      ensures LatestVersionGate(old(localDatabaseDirty), answerYes, sync).Failure? ==>
                r == Threw(SyncFailed(sync.error)) && unchanged(this)
      ensures LatestVersionGate(old(localDatabaseDirty), answerYes, sync) == Success(false) ==> r == Done && unchanged(this)
      ensures LatestVersionGate(old(localDatabaseDirty), answerYes, sync) == Success(true) &&
              Lookup(old(database.accounts), accountName).None? ==>
                r == Threw(AccountDoesntExist(accountName)) && unchanged(this)
      ensures LatestVersionGate(old(localDatabaseDirty), answerYes, sync) == Success(true) &&
              Lookup(old(database.accounts), accountName).Some? && !(okClicked && changed) ==>
                r == Done && unchanged(this)
      ensures LatestVersionGate(old(localDatabaseDirty), answerYes, sync) == Success(true) &&
              Lookup(old(database.accounts), accountName).Some? && okClicked && changed ==>
                database == Edited(old(database), accountName, edited) &&
                databaseNeedsReload == old(databaseNeedsReload) &&
                (edited.name == accountName ==>
                   r == Done && accountNames == old(accountNames) &&
                   savedUrls == old(savedUrls) + [SaveUrl(database.accounts)] && localDatabaseDirty) &&
                (edited.name != accountName && accountName !in old(accountNames) ==>
                   r == Threw(IndexOutOfBounds(-1)) && accountNames == old(accountNames) &&
                   savedUrls == old(savedUrls) && localDatabaseDirty == old(localDatabaseDirty)) &&
                (edited.name != accountName && accountName in old(accountNames) ==>
                   r == Done &&
                   accountNames == RemoveAt(old(accountNames), IndexOfElement(old(accountNames), accountName)) + [edited.name] &&
                   savedUrls == old(savedUrls) + [SaveUrl(database.accounts)] && localDatabaseDirty)
      ensures old(NamesInSync()) && (edited.name == accountName || edited.name !in old(accountNames)) ==> NamesInSync()
    {
      var gate := LatestVersionGate(localDatabaseDirty, answerYes, sync);
      if gate.Failure? {
        return Threw(SyncFailed(gate.error));
      }
      if !gate.value {
        return Done;
      }
      if Lookup(database.accounts, accountName).None? {
        return Threw(AccountDoesntExist(accountName));
      }
      if !(okClicked && changed) {
        return Done;
      }
      if NamesInSync() {
        LookupFacts(database.accounts, accountName);
        assert accountName in multiset(accountNames);
        if edited.name == accountName {
          EditKeepsSync(accountNames, database.accounts, edited);
        } else if edited.name !in accountNames {
          RenameKeepsSync(accountNames, database.accounts, accountName, edited);
        }
      }
      r := StoreEdit(accountName, edited);
    }

    /**
     * The end of a confirmed edit of an existing account: the database takes
     * the edit, a rename moves the name to the end of the name list, and the
     * database is saved; a renamed account missing from the list throws at
     * `remove(-1)` before the save.
     */
    method StoreEdit(accountName: string, edited: Account) returns (r: ActionOutcome)
      requires Valid() && Lookup(database.accounts, accountName).Some?
      modifies this
      ensures Valid()
      ensures old(localDatabaseDirty) ==> localDatabaseDirty
      ensures database == Edited(old(database), accountName, edited)
      ensures databaseNeedsReload == old(databaseNeedsReload)
      ensures edited.name == accountName ==>
                r == Done && accountNames == old(accountNames) &&
                savedUrls == old(savedUrls) + [SaveUrl(database.accounts)] && localDatabaseDirty
      ensures edited.name != accountName && accountName !in old(accountNames) ==>
                r == Threw(IndexOutOfBounds(-1)) && accountNames == old(accountNames) &&
                savedUrls == old(savedUrls) && localDatabaseDirty == old(localDatabaseDirty)
      ensures edited.name != accountName && accountName in old(accountNames) ==>
                r == Done &&
                accountNames == RemoveAt(old(accountNames), IndexOfElement(old(accountNames), accountName)) + [edited.name] &&
                savedUrls == old(savedUrls) + [SaveUrl(database.accounts)] && localDatabaseDirty
    {
      var before := database;
      RemoveDistinct(before.accounts, accountName);
      PutDistinct(Remove(before.accounts, accountName), edited);
      database := Edited(before, accountName, edited);
      if edited.name != accountName {
        r := RenameInNameList(accountName, edited.name);
        if r != Done {
          return;
        }
      }
      SaveDatabase();
      r := Done;
    }

    /** `indexOf`, `remove` and `add` on the name list: the old name's first entry goes, the new name is appended. */
    method RenameInNameList(oldName: string, newName: string) returns (r: ActionOutcome)
      modifies this
      ensures database == old(database) && savedUrls == old(savedUrls)
      ensures localDatabaseDirty == old(localDatabaseDirty) && databaseNeedsReload == old(databaseNeedsReload)
      ensures oldName !in old(accountNames) ==> r == Threw(IndexOutOfBounds(-1)) && accountNames == old(accountNames)
      ensures oldName in old(accountNames) ==>
                r == Done && accountNames == RemoveAt(old(accountNames), IndexOfElement(old(accountNames), oldName)) + [newName]
    {
      var i := IndexOfElement(accountNames, oldName);
      if i == -1 {
        return Threw(IndexOutOfBounds(-1));
      }
      accountNames := RemoveAt(accountNames, i) + [newName];
      r := Done;
    }

    /**
     * `importAccounts`: once the gate opens and a file is chosen, the records
     * are read as accounts; a file that cannot be read or parsed is reported
     * and nothing changes. The accounts `SelectImports` picks are added one
     * by one, each replacing any account of its name; then the database is
     * saved and the name list rebuilt. A cancelled import, or one that picks
     * nothing, changes nothing.
     */
    method ImportAccounts(answerYes: bool, sync: SyncOutcome, fileChosen: bool, records: Option<seq<seq<string>>>,
                          answer: nat -> int) returns (r: ActionOutcome)
      requires Valid()
      modifies this
      ensures Valid()
      ensures old(localDatabaseDirty) ==> localDatabaseDirty
      ensures LatestVersionGate(old(localDatabaseDirty), answerYes, sync).Failure? ==>
                r == Threw(SyncFailed(sync.error)) && unchanged(this)
      ensures LatestVersionGate(old(localDatabaseDirty), answerYes, sync) == Success(false) ==> r == Done && unchanged(this)
      ensures LatestVersionGate(old(localDatabaseDirty), answerYes, sync) == Success(true) && !fileChosen ==>
                r == Done && unchanged(this)
      ensures LatestVersionGate(old(localDatabaseDirty), answerYes, sync) == Success(true) && fileChosen &&
              records.None? ==>
                r == ImportProblem(CannotRead) && unchanged(this)
      ensures LatestVersionGate(old(localDatabaseDirty), answerYes, sync) == Success(true) && fileChosen &&
              records.Some? && ParseRecords(records.value).Failure? ==>
                r == ImportProblem(ParseRecords(records.value).error) && unchanged(this)
      ensures LatestVersionGate(old(localDatabaseDirty), answerYes, sync) == Success(true) && fileChosen &&
              records.Some? && ParseRecords(records.value).Success? ==>
                r == Done &&
                var picked := SelectImports(ParseRecords(records.value).value, old(database.accounts), answer);
                (picked.None? || picked.value == [] ==> unchanged(this)) &&
                (picked.Some? && picked.value != [] ==>
                   database == old(database).(accounts := UpsertAll(old(database.accounts), picked.value)) &&
                   accountNames == Names(database.accounts) &&
                   savedUrls == old(savedUrls) + [SaveUrl(database.accounts)] &&
                   localDatabaseDirty && databaseNeedsReload == old(databaseNeedsReload))
      ensures LatestVersionGate(old(localDatabaseDirty), answerYes, sync) == Success(true) && fileChosen &&
              records.Some? && ParseRecords(records.value).Success? ==>
                var inFile := ParseRecords(records.value).value;
                forall n :: Lookup(old(database.accounts), n).Some? &&
                            (forall i :: 0 <= i < |inFile| && inFile[i].name == n ==> answer(i) == 1) ==>
                              Lookup(database.accounts, n) == Lookup(old(database.accounts), n)
      ensures old(NamesInSync()) ==> NamesInSync()
    {
      var gate := LatestVersionGate(localDatabaseDirty, answerYes, sync);
      if gate.Failure? {
        return Threw(SyncFailed(gate.error));
      }
      if !gate.value || !fileChosen {
        return Done;
      }
      var parsed := Unmarshal(records);
      if parsed.Failure? {
        return ImportProblem(parsed.error);
      }
      var existing := database.accounts;
      var picked := PickImports(parsed.value, existing, answer);
      if picked.Some? && |picked.value| > 0 {
        ApplyImports(picked.value);
        forall n | Lookup(existing, n).Some? &&
                   (forall i :: 0 <= i < |parsed.value| && parsed.value[i].name == n ==> answer(i) == 1)
          ensures Lookup(database.accounts, n) == Lookup(existing, n)
        {
          KeepExistingSurvives(parsed.value, existing, answer, n);
        }
      }
      r := Done;
    }

    /** The import loop over the records of the file: the accounts to import, or `None` when the user cancels. */
    method PickImports(inFile: seq<Account>, existing: seq<Account>, answer: nat -> int) returns (picked: Option<seq<Account>>)
      ensures picked == SelectImports(inFile, existing, answer)
    {
      var accountsToImport: seq<Account> := [];
      var i := 0;
      while i < |inFile|
        invariant 0 <= i <= |inFile|
        invariant SelectImports(inFile[..i], existing, answer) == Some(accountsToImport)
      {
        var importedAccount := inFile[i];
        assert inFile[..i + 1][..i] == inFile[..i];
        if Lookup(existing, importedAccount.name).Some? {
          if answer(i) == 1 {
            i := i + 1;
            continue;
          } else if answer(i) == 2 {
            SelectImportsCancelPersists(inFile, existing, answer, i + 1);
            return None;
          }
        }
        accountsToImport := accountsToImport + [importedAccount];
        i := i + 1;
      }
      assert inFile[..i] == inFile;
      picked := Some(accountsToImport);
    }

    /** The end of a confirmed import: each account is added in turn, the database saved and the name list rebuilt. */
    method ApplyImports(accountsToImport: seq<Account>)
      requires Valid()
      modifies this
      ensures Valid() && NamesInSync()
      ensures database == old(database).(accounts := UpsertAll(old(database.accounts), accountsToImport))
      ensures accountNames == Names(database.accounts)
      ensures savedUrls == old(savedUrls) + [SaveUrl(database.accounts)]
      ensures localDatabaseDirty && databaseNeedsReload == old(databaseNeedsReload)
    {
      var existing := database.accounts;
      UpsertAllFacts(existing, accountsToImport);
      var accounts := existing;
      var k := 0;
      while k < |accountsToImport|
        invariant 0 <= k <= |accountsToImport|
        invariant accounts == UpsertAll(existing, accountsToImport[..k])
      {
        assert accountsToImport[..k + 1][..k] == accountsToImport[..k];
        accounts := Upsert(accounts, accountsToImport[k]);
        k := k + 1;
      }
      assert accountsToImport[..k] == accountsToImport;
      database := database.(accounts := accounts);
      SaveDatabase();
      accountNames := GetAccountNames();
      assert accountNames == Names(database.accounts);
    }

    /**
     * `showDatabaseProperties`: once the gate opens, the database is saved if
     * the properties dialog says it needs saving; editing the properties
     * belongs to the dialog and is not modelled. A sync that fails with a
     * transport error offers to detach the database from its remote copy;
     * on yes the remote location and the authentication entry are cleared
     * and the database saved. Other sync exceptions escape.
     */
    method ShowDatabaseProperties(answerYes: bool, sync: SyncOutcome, needsSaving: bool, detach: bool)
      returns (r: ActionOutcome)
      modifies this
      ensures old(localDatabaseDirty) ==> localDatabaseDirty
      ensures database.accounts == old(database.accounts) && accountNames == old(accountNames)
      ensures databaseNeedsReload == old(databaseNeedsReload)
      ensures LatestVersionGate(old(localDatabaseDirty), answerYes, sync) == Success(true) ==>
                r == Done && database == old(database) &&
                (needsSaving ==> savedUrls == old(savedUrls) + [SaveUrl(database.accounts)] && localDatabaseDirty) &&
                (!needsSaving ==> unchanged(this))
      ensures LatestVersionGate(old(localDatabaseDirty), answerYes, sync) == Success(false) ==> r == Done && unchanged(this)
      ensures LatestVersionGate(old(localDatabaseDirty), answerYes, sync) == Failure(TransportFailure) ==>
                r == Done &&
                (detach ==> database.options == DbOptions("", "") &&
                            savedUrls == old(savedUrls) + [SaveUrl(database.accounts)] && localDatabaseDirty) &&
                (!detach ==> unchanged(this))
      ensures LatestVersionGate(old(localDatabaseDirty), answerYes, sync) == Failure(NullPointer) ==>
                r == Threw(SyncFailed(NullPointer)) && unchanged(this)
    {
      var gate := LatestVersionGate(localDatabaseDirty, answerYes, sync);
      match gate
      case Success(latest) =>
        if latest && needsSaving {
          SaveDatabase();
        }
        r := Done;
      case Failure(TransportFailure) =>
        if detach {
          database := database.(options := database.options.(remoteLocation := "", authDBEntry := ""));
          SaveDatabase();
        }
        r := Done;
      case Failure(NullPointer) =>
        r := Threw(SyncFailed(NullPointer));
    }
  }

  /** A name list holds exactly the names of the accounts, each as often. */
  predicate InSync(names: seq<string>, accounts: seq<Account>)
  {
    multiset(names) == multiset(Names(accounts))
  }

  /** Appending a new name to the list while adding its account keeps the two in sync. */
  lemma AddKeepsSync(names: seq<string>, accounts: seq<Account>, a: Account)
    requires InSync(names, accounts) && a.name !in names
    ensures InSync(names + [a.name], Upsert(accounts, a))
  {
    UpsertFacts(accounts, a);
    assert a.name !in multiset(names);
  }

  /** Removing an entry from the list while deleting its account keeps the two in sync. */
  lemma DeleteKeepsSync(names: seq<string>, accounts: seq<Account>, i: nat)
    requires InSync(names, accounts) && Distinct(Names(accounts)) && i < |names|
    ensures InSync(RemoveAt(names, i), Remove(accounts, names[i]))
  {
    var name := names[i];
    RemoveNames(accounts, name);
    DistinctCount(Names(accounts), name);
    assert name in multiset(names);
  }

  /** An edit that keeps the account's name leaves the names as they were. */
  lemma EditKeepsSync(names: seq<string>, accounts: seq<Account>, edited: Account)
    requires InSync(names, accounts) && Distinct(Names(accounts)) && Lookup(accounts, edited.name).Some?
    ensures InSync(names, Put(Remove(accounts, edited.name), edited))
  {
    LookupFacts(accounts, edited.name);
    UpsertFacts(accounts, edited);
    DistinctCount(Names(accounts), edited.name);
    var m := multiset(Names(accounts));
    assert m[edited.name] == 1;
    assert m[edited.name := 1] == m;
  }

  /** Moving a renamed entry to the end of the list under its new, unused name keeps the two in sync. */
  lemma RenameKeepsSync(names: seq<string>, accounts: seq<Account>, accountName: string, edited: Account)
    requires InSync(names, accounts) && Distinct(Names(accounts))
    requires accountName in names && edited.name != accountName && edited.name !in names
    ensures InSync(RemoveAt(names, IndexOfElement(names, accountName)) + [edited.name],
                   Put(Remove(accounts, accountName), edited))
  {
    var i := IndexOfElement(names, accountName);
    DeleteKeepsSync(names, accounts, i);
    var rest, removed := RemoveAt(names, i), Remove(accounts, accountName);
    assert edited.name !in multiset(Names(removed)) by {
      assert edited.name !in multiset(names);
      RemoveNames(accounts, accountName);
    }
    PutNames(removed, edited);
    NamesAppend(removed, [edited]);
    assert Names(Put(removed, edited)) == Names(removed) + [edited.name];
    assert multiset(rest + [edited.name]) == multiset(rest) + multiset{edited.name};
    assert multiset(Names(removed) + [edited.name]) == multiset(Names(removed)) + multiset{edited.name};
  }
}
