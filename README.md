# UPM password database: persistence, CSV marshalling and GUI actions

This project models the core of the UPM (Universal Password Manager) Swing application in Dafny and proves properties of that model.

A password database is a set of accounts, keyed by account name. Each account is a name, a user id, a password, a url and notes. The database also holds an options block: a remote location and the name of the account whose credentials reach it.

Three Java classes are modelled:

- **`PasswordDatabasePersistence`** (modules `Persistence` and `PersistenceFormats`).
  - `load` fetches a text response from a local login-manager service. It cuts the response into chunks at every `}{`, strips the braces, and splits each chunk at every `,` and `:`. It then reads the account from fields 3, 5, 7, 9 and 11 and puts it into a map under its name.
  - `save` builds one URL: the login-manager address followed by a `?websiteName=…&website=…&password=…&infoNotes=…&userId=…` segment per account. Nothing in it is escaped.
  - `readFile` fills an array of `(int) file.length()` bytes from an input stream.
- **`AccountsCSVMarshaller`** (module `CsvMarshaller`).
  - `unmarshal` turns five-column records into accounts and rejects the first record that has a different column count.
  - `getAccountAsStringArray` lists an account's fields in column order.
  - `marshal` loops over the accounts but writes nothing, because its writer calls are commented out.
- **`DatabaseActions`** (module `Gui`, class `DatabaseActions`). This is the controller behind the main window. It keeps the open database, the list of account names, the `localDatabaseDirty` flag and the reload flag.
  - Its add, delete, edit, import and properties actions each first pass the `getLatestVersionOfDatabase` gate.
  - Saving is recorded as the URL that `save` requests.

Three things about the code shape the model:

- `load` and `save` talk to a local HTTP service, and nothing is encrypted.
- The `FILE_HEADER` and `DB_VERSION` constants of `PasswordDatabasePersistence` (lines 61-62) are never used.
- The writer calls in `marshal` are commented out, so a CSV export writes nothing.

Shared modules:

- `Wrappers` holds `Option` and `Result`.
- `Accounts` holds the account and database values and the name-keyed map operations. Java's `HashMap` is a sequence with distinct names, and `put`, `remove` and `get` are `Put`, `Remove` and `Lookup`.
- `JavaLib` holds the Java library behaviour the code relies on:
  - `String.split` with limit 0, which drops trailing empty strings;
  - `replace`;
  - `String.indexOf`;
  - `ArrayList.indexOf` and `remove(int)`.

Things the controller reads from the outside world come in as method parameters:

- the user's answers to dialogs;
- the search text;
- the file contents;
- the outcome of a sync with the remote database;
- the lower-casing function, `lower`.

Facts proved about the code as written:

- Nothing ever sets `localDatabaseDirty` to false. Every action keeps it set (`old(localDatabaseDirty) ==> localDatabaseDirty`), and the constructor sets it.
- So `LatestVersionGate` lets an action go on only when the user agrees to sync and the sync returns true.
- `fileMonitor` is never assigned, because the assignment at `DatabaseActions.java` line 256 is commented out. So every call of `syncWithRemoteDatabase` throws a `NullPointerException` at `fileMonitor.pause()` (line 702), and its `finally` block throws again at line 752. The sync never returns: neither `true` nor `false`, and it never raises a `TransportException`.
- Together, these mean no gated action changes the database in a running application. The `TransportException` branch of `showDatabaseProperties` cannot run either. The model allows every sync outcome, so that every branch stays reachable, and it specifies what each action does in each of them.

## Model

| member | source | states |
|---|---|---|
| Accounts.Names | src/com/_17od/upm/gui/DatabaseActions.java:295-304 | the name list has one entry per account, position by position |
| Accounts.LookupFacts | src/com/_17od/upm/gui/DatabaseActions.java:446 | `getAccount` finds an account exactly when its name is present, and the account it finds has that name |
| Accounts.RemoveLookup | src/com/_17od/upm/gui/DatabaseActions.java:363 | after `deleteAccount(name)`, `name` is absent and every other name is looked up as before |
| Accounts.RemoveNames | src/com/_17od/upm/gui/DatabaseActions.java:363 | `deleteAccount` drops exactly the occurrences of the name, and leaves the accounts unchanged when the name is absent |
| Accounts.RemoveDistinct | src/com/_17od/upm/gui/DatabaseActions.java:363 | deleting keeps the names distinct |
| Accounts.RemovedOne | src/com/_17od/upm/gui/DatabaseActions.java:363 | with distinct names, deleting a present name removes exactly one account, and deleting an absent name removes none |
| Accounts.PutLookup | src/com/_17od/upm/database/PasswordDatabasePersistence.java:117 | after `put(a)`, `a.name` maps to `a` and every other name is looked up as before |
| Accounts.PutNames | src/com/_17od/upm/database/PasswordDatabasePersistence.java:117 | `put` on an existing name keeps the names; on a new name it appends the account |
| Accounts.PutDistinct | src/com/_17od/upm/database/PasswordDatabasePersistence.java:117 | `put` keeps the names distinct |
| Accounts.UpsertFacts | src/com/_17od/upm/gui/DatabaseActions.java:387-388 | after delete-then-add, `a.name` occurs exactly once and maps to `a`, and other names are unchanged; this equals the deletion followed by `a`; names stay distinct; the count grows only for a new name |
| Accounts.DistinctCount | src/com/_17od/upm/gui/DatabaseActions.java:361-363 | among distinct names each name occurs at most once |
| Accounts.UpsertAllFacts | src/com/_17od/upm/gui/DatabaseActions.java:829-833 | after a batch of imports, each name maps to the batch's last account with that name, or to its old account when the batch does not mention it; names stay distinct |
| Accounts.Lookup | src/com/_17od/upm/gui/DatabaseActions.java:446 | definition of `getAccount`; its properties are proved in Accounts.LookupFacts |
| Accounts.Remove | src/com/_17od/upm/gui/DatabaseActions.java:363 | definition of `deleteAccount`; its properties are proved in Accounts.RemoveLookup, Accounts.RemoveNames, Accounts.RemoveDistinct and Accounts.RemovedOne |
| Accounts.Put | src/com/_17od/upm/database/PasswordDatabasePersistence.java:117 | definition of `HashMap.put`; its properties are proved in Accounts.PutLookup, Accounts.PutNames and Accounts.PutDistinct |
| Accounts.Upsert | src/com/_17od/upm/gui/DatabaseActions.java:387-388 | definition of delete-then-add; its properties are proved in Accounts.UpsertFacts |
| Accounts.UpsertAll | src/com/_17od/upm/gui/DatabaseActions.java:829-833 | definition of the import loop's upserts; its properties are proved in Accounts.UpsertAllFacts |
| JavaLib.DeleteFacts | src/com/_17od/upm/database/PasswordDatabasePersistence.java:107 | `replace(c, "")` removes every `c` and keeps the count of every other character; text without `c` is unchanged |
| JavaLib.SplitCharsRoundTrip | src/com/_17od/upm/database/PasswordDatabasePersistence.java:108 | joining the pieces of a split on a character class with their separators gives the text back |
| JavaLib.SplitCharsFree | src/com/_17od/upm/database/PasswordDatabasePersistence.java:108 | text without a separator splits into itself alone |
| JavaLib.SplitOnRoundTrip | src/com/_17od/upm/database/PasswordDatabasePersistence.java:105 | joining the pieces of a split on `}{` with `}{` gives the text back |
| JavaLib.SplitOnJoin | src/com/_17od/upm/database/PasswordDatabasePersistence.java:105 | splitting a join of separator-free pieces gives the pieces back |
| JavaLib.DropTrailingEmptyFacts | src/com/_17od/upm/database/PasswordDatabasePersistence.java:105-108 | dropping trailing empty pieces, which `split` does whenever the raw split has more than one piece, keeps a prefix of the raw pieces that does not end in an empty piece, and drops only empty pieces |
| JavaLib.IndexOfFacts | src/com/_17od/upm/gui/DatabaseActions.java:491 | `indexOf` is -1 exactly when the pattern occurs nowhere; otherwise it is the first position where the pattern occurs |
| JavaLib.IndexOfElement | src/com/_17od/upm/gui/DatabaseActions.java:361 | `ArrayList.indexOf` is -1 exactly for an absent element; otherwise it is the first index holding it |
| JavaLib.RemoveAt | src/com/_17od/upm/gui/DatabaseActions.java:362 | `remove(i)` shortens the list by one: the elements before `i` keep their places, the ones after it move down by one, and exactly the element at `i` leaves the multiset |
| JavaLib.Delete | src/com/_17od/upm/database/PasswordDatabasePersistence.java:107 | definition of `replace(c, "")`; its properties are proved in JavaLib.DeleteFacts |
| JavaLib.SplitChars | src/com/_17od/upm/database/PasswordDatabasePersistence.java:108 | definition of the raw split on a character class; its properties are proved in JavaLib.SplitCharsRoundTrip and JavaLib.SplitCharsFree |
| JavaLib.SplitOn | src/com/_17od/upm/database/PasswordDatabasePersistence.java:105 | definition of the raw split on `}{`; its properties are proved in JavaLib.SplitOnRoundTrip and JavaLib.SplitOnJoin |
| JavaLib.JavaSplit | src/com/_17od/upm/database/PasswordDatabasePersistence.java:105-108 | definition of `split` with limit 0; its properties are proved in JavaLib.DropTrailingEmptyFacts |
| JavaLib.IndexOf | src/com/_17od/upm/gui/DatabaseActions.java:491 | definition of `String.indexOf`; its properties are proved in JavaLib.IndexOfFacts |
| Persistence.ConcatAppend | src/com/_17od/upm/database/PasswordDatabasePersistence.java:97-99 | appending the lines in two batches gives the same response as appending them all |
| Persistence.StripBracesFacts | src/com/_17od/upm/database/PasswordDatabasePersistence.java:107 | no brace survives, every other character keeps its count, and a brace-free chunk is unchanged |
| Persistence.ParseChunk | src/com/_17od/upm/database/PasswordDatabasePersistence.java:108-115 | a chunk fails exactly when it has fewer than 12 fields, and the failure names the first of fields 3, 5, 7, 9, 11 it lacks; otherwise fields 3, 5, 7, 9, 11 become the name, url, password, notes and user id |
| Persistence.ParseChunksFailurePersists | src/com/_17od/upm/database/PasswordDatabasePersistence.java:106-118 | once a chunk fails, all of `load` fails with that error |
| Persistence.ParseChunksSuccess | src/com/_17od/upm/database/PasswordDatabasePersistence.java:106-118 | parsing succeeds exactly when every chunk has at least 12 fields, and then gives one account per chunk, in order |
| Persistence.ParseChunksFailure | src/com/_17od/upm/database/PasswordDatabasePersistence.java:106-118 | a failure carries the error of the first chunk with too few fields, and every earlier chunk parsed |
| Persistence.PutAllFacts | src/com/_17od/upm/database/PasswordDatabasePersistence.java:101-117 | the map `load` builds has distinct names and no more accounts than chunks; a name is present exactly when some chunk has it, and maps to the last such chunk's account |
| Persistence.PutAllDistinct | src/com/_17od/upm/database/PasswordDatabasePersistence.java:117 | when the chunks' names are distinct, the map holds exactly the chunks' accounts, in the model's map order, which is chunk order |
| Persistence.ReadResponse | src/com/_17od/upm/database/PasswordDatabasePersistence.java:97-99 | the loop's response is the lines appended one after another |
| Persistence.Load | src/com/_17od/upm/database/PasswordDatabasePersistence.java:97-120 | `load` succeeds exactly when the concatenated response parses; it returns those accounts with default options, or the parse error |
| Persistence.LoadAccountsFacts | src/com/_17od/upm/database/PasswordDatabasePersistence.java:101-120 | a loaded database has distinct names and at most one account per chunk, and each name holds its last chunk's account |
| Persistence.LoadEmptyResponse | src/com/_17od/upm/database/PasswordDatabasePersistence.java:105-110 | an empty response throws while reading field 3 |
| Persistence.LoadBareSeparator | src/com/_17od/upm/database/PasswordDatabasePersistence.java:105-120 | the response `}{` splits into no chunks and loads as an empty database |
| Persistence.Save | src/com/_17od/upm/database/PasswordDatabasePersistence.java:126-137 | the loop builds the login-manager address followed by one segment per account, in the model's map order |
| Persistence.SaveUrlAppend | src/com/_17od/upm/database/PasswordDatabasePersistence.java:129-137 | each further account adds its segment at the end of the URL |
| Persistence.QueryAppend | src/com/_17od/upm/database/PasswordDatabasePersistence.java:129-137 | the segments of two batches are each batch's segments, one after the other |
| Persistence.SaveUrlPrefix | src/com/_17od/upm/database/PasswordDatabasePersistence.java:127-137 | the URL always starts with the login-manager address, and is exactly that address when there are no accounts |
| Persistence.JavaIntCastFacts | src/com/_17od/upm/database/PasswordDatabasePersistence.java:169 | `(int)` of a file length lies in the 32-bit signed range; it keeps lengths below 2^31 and makes lengths from 2^31 to 2^32-1 negative |
| Persistence.FileInputStream.constructor | src/com/_17od/upm/database/PasswordDatabasePersistence.java:163 | a fresh stream has all of the file's bytes unread |
| Persistence.FileInputStream.Read | src/com/_17od/upm/database/PasswordDatabasePersistence.java:177 | `read` gives -1 exactly at the end of the stream; otherwise it copies between 1 and `len` of the remaining bytes to the offset, consumes them and leaves the rest of the array unchanged; `ReadFile` relies on nothing more |
| Persistence.ReadFile | src/com/_17od/upm/database/PasswordDatabasePersistence.java:160-190 | a file that cannot be opened fails; a negative cast length fails with the stream unread; otherwise the result is the array of the first `(int)` length bytes when the file has that many, and "could not completely read" when it has fewer |
| Persistence.ParseChunks | src/com/_17od/upm/database/PasswordDatabasePersistence.java:106-118 | definition of the chunk loop of `load`; its properties are proved in Persistence.ParseChunksFailurePersists, Persistence.ParseChunksSuccess and Persistence.ParseChunksFailure |
| Persistence.PutAll | src/com/_17od/upm/database/PasswordDatabasePersistence.java:101-117 | definition of the map `load` fills; its properties are proved in Persistence.PutAllFacts and Persistence.PutAllDistinct |
| Persistence.LoadAccounts | src/com/_17od/upm/database/PasswordDatabasePersistence.java:101-120 | definition of the parse of the response; its properties are proved in Persistence.LoadAccountsFacts, Persistence.LoadEmptyResponse, Persistence.LoadBareSeparator and the PersistenceFormats lemmas, and Persistence.Load is proved against it |
| Persistence.Segment | src/com/_17od/upm/database/PasswordDatabasePersistence.java:136 | definition of one account's URL segment; its properties are proved in PersistenceFormats.DecodeSegmentBody |
| Persistence.Query | src/com/_17od/upm/database/PasswordDatabasePersistence.java:129-137 | definition of the segments of all accounts; its properties are proved in Persistence.QueryAppend |
| Persistence.SaveUrl | src/com/_17od/upm/database/PasswordDatabasePersistence.java:126-137 | definition of the URL `save` builds; its properties are proved in Persistence.SaveUrlAppend, Persistence.SaveUrlPrefix, PersistenceFormats.SaveRoundTrip and PersistenceFormats.SaveUrlAmbiguous, and Persistence.Save is proved against it |
| PersistenceFormats.SplitRecord | src/com/_17od/upm/database/PasswordDatabasePersistence.java:108 | a record whose fields hold no `,` or `:` splits into its twelve keys and values |
| PersistenceFormats.ChunksOfRecords | src/com/_17od/upm/database/PasswordDatabasePersistence.java:105-107 | brace-free records written back to back in braces split into one chunk per record, and stripping each chunk's braces gives its record back |
| PersistenceFormats.ParseRecord | src/com/_17od/upm/database/PasswordDatabasePersistence.java:107-115 | a chunk holding a well-formed record parses to that record's account |
| PersistenceFormats.ParseResponseChunks | src/com/_17od/upm/database/PasswordDatabasePersistence.java:105-115 | each chunk of a well-formed response parses to its account |
| PersistenceFormats.LoadRoundTrip | src/com/_17od/upm/database/PasswordDatabasePersistence.java:97-120 | a response listing at least one account, with no separator or brace in any field and a non-empty user id, loads as the map of those accounts (in the assumed record layout); with distinct names it loads as exactly those accounts, in the model's map order |
| PersistenceFormats.LoadEmptyUserId | src/com/_17od/upm/database/PasswordDatabasePersistence.java:108-114 | an empty user id is a trailing empty field that `split` drops, so `load` throws while reading field 11 |
| PersistenceFormats.LoadColonInUrl | src/com/_17od/upm/database/PasswordDatabasePersistence.java:108-115 | a url containing one `:` shifts the later fields: `load` stores the text before the colon as the url, and the keys of the next three pairs (`password`, `infoNotes` and `userId` in the assumed record layout) as the password, notes and user id; this holds for an empty user id too |
| PersistenceFormats.DecodeSegmentBody | src/com/_17od/upm/database/PasswordDatabasePersistence.java:136 | a segment whose fields hold no `?` or `&` decodes to its account |
| PersistenceFormats.SaveRoundTrip | src/com/_17od/upm/database/PasswordDatabasePersistence.java:126-137 | the save URL decodes back to the accounts, in the model's map order, when no field holds a `?` or `&` |
| PersistenceFormats.SaveUrlAmbiguous | src/com/_17od/upm/database/PasswordDatabasePersistence.java:136 | with nothing escaped, two different account lists can produce the same save URL |
| CsvMarshaller.AccountAsStringArray | src/com/_17od/upm/database/AccountsCSVMarshaller.java:84-92 | the row has five columns and reads back as the same account |
| CsvMarshaller.RecordRoundTrip | src/com/_17od/upm/database/AccountsCSVMarshaller.java:70-75 | a five-column record read as an account and written back gives the same record |
| CsvMarshaller.Unmarshal | src/com/_17od/upm/database/AccountsCSVMarshaller.java:58-82 | a file that cannot be read fails; otherwise the loop's result is the records parsed in order, or the number of the first bad record |
| CsvMarshaller.ParseRecordsFailurePersists | src/com/_17od/upm/database/AccountsCSVMarshaller.java:63-69 | once a record has the wrong column count, the whole import fails with its number |
| CsvMarshaller.ParseRecordsSuccess | src/com/_17od/upm/database/AccountsCSVMarshaller.java:63-76 | the import succeeds exactly when every record has five columns, and then gives one account per record, in file order |
| CsvMarshaller.ParseRecordsFailure | src/com/_17od/upm/database/AccountsCSVMarshaller.java:64-68 | a failure names the first record, counting from 1, that lacks five columns, and every earlier record has five |
| CsvMarshaller.ExportRows | src/com/_17od/upm/database/AccountsCSVMarshaller.java:47-51 | the rows an export would write: one per account, each the account's string array; the code never performs this export, because these writer calls are commented out |
| CsvMarshaller.ExportImportRoundTrip | src/com/_17od/upm/database/AccountsCSVMarshaller.java:58-92 | importing the rows of an export gives the exported accounts back, in order, for the rows the commented-out export would have written |
| CsvMarshaller.Marshal | src/com/_17od/upm/database/AccountsCSVMarshaller.java:34-56 | the loop visits every account and writes no row |
| CsvMarshaller.AccountFromRecord | src/com/_17od/upm/database/AccountsCSVMarshaller.java:70-75 | definition of the account built from one record; its properties are proved in CsvMarshaller.RecordRoundTrip and CsvMarshaller.AccountAsStringArray |
| CsvMarshaller.ParseRecords | src/com/_17od/upm/database/AccountsCSVMarshaller.java:63-76 | definition of the record loop of `unmarshal`; its properties are proved in CsvMarshaller.ParseRecordsFailurePersists, CsvMarshaller.ParseRecordsSuccess and CsvMarshaller.ParseRecordsFailure, and CsvMarshaller.Unmarshal is proved against it |
| Gui.LatestVersionGate | src/com/_17od/upm/gui/DatabaseActions.java:406-420 | the gate gives true exactly when the copy is clean, or when the user agrees to sync and the sync returns true; it throws exactly when the user agrees and the sync throws, and then with the sync's exception |
| Gui.KeepMatchingAppend | src/com/_17od/upm/gui/DatabaseActions.java:488-494 | filtering a concatenation filters each part: the list order is kept |
| Gui.KeepMatchingMembers | src/com/_17od/upm/gui/DatabaseActions.java:488-494 | a name is shown exactly when it is in the list and matches the filter |
| Gui.KeepMatchingIdempotent | src/com/_17od/upm/gui/DatabaseActions.java:488-494 | filtering the filtered list again changes nothing |
| Gui.KeepMatchingEmptyFilter | src/com/_17od/upm/gui/DatabaseActions.java:491 | an empty filter shows every name |
| Gui.EmptyFilterTestRedundant | src/com/_17od/upm/gui/DatabaseActions.java:491 | the `equals("")` test adds nothing, because `indexOf("")` is 0 |
| Gui.EditedFacts | src/com/_17od/upm/gui/DatabaseActions.java:460-471 | after an edit the edited account is stored under its name, and a renamed account's old name is gone; other names and the remote location are unchanged; names stay distinct. When the authentication entry named the edited account it is moved to the new name and resolves to the edited account; otherwise the options are unchanged |
| Gui.AddKeepsSync | src/com/_17od/upm/gui/DatabaseActions.java:387-390 | adding an account under a name not yet listed, and appending the name to the list, keeps the list and the database's names equal as multisets |
| Gui.DeleteKeepsSync | src/com/_17od/upm/gui/DatabaseActions.java:361-363 | removing an entry from the list and deleting the account of that name keeps the list and the database's names equal as multisets |
| Gui.EditKeepsSync | src/com/_17od/upm/gui/DatabaseActions.java:462-463 | storing an edit that keeps the account's name leaves the list and the database in sync |
| Gui.RenameKeepsSync | src/com/_17od/upm/gui/DatabaseActions.java:462-474 | a rename to an unused name, with the old name removed from the list and the new one appended, leaves the list and the database in sync |
| Gui.SelectImportsCancelPersists | src/com/_17od/upm/gui/DatabaseActions.java:803-826 | once the import is cancelled it stays cancelled |
| Gui.SelectImportsFacts | src/com/_17od/upm/gui/DatabaseActions.java:803-826 | the import is cancelled exactly when a clashing record was answered "Cancel"; otherwise every new-named record and every clash not answered "Keep Existing" is taken, and nothing from outside the file is |
| Gui.SelectImportsOrder | src/com/_17od/upm/gui/DatabaseActions.java:803-826 | an import that is not cancelled selects the records at increasing positions of the file, each once, and those positions are exactly the records with a new name or a clash not answered "Keep Existing"; a record answered "Keep Existing" is left out |
| Gui.KeepExistingSurvives | src/com/_17od/upm/gui/DatabaseActions.java:803-836 | an existing account whose every record in the file was answered "Keep Existing" is the same after the import as before it |
| Gui.KeepMatching | src/com/_17od/upm/gui/DatabaseActions.java:488-494 | definition of the names `filter` keeps; its properties are proved in Gui.KeepMatchingAppend, Gui.KeepMatchingMembers, Gui.KeepMatchingIdempotent and Gui.KeepMatchingEmptyFilter |
| Gui.Edited | src/com/_17od/upm/gui/DatabaseActions.java:460-471 | definition of the database after a confirmed edit; its properties are proved in Gui.EditedFacts |
| Gui.SelectImports | src/com/_17od/upm/gui/DatabaseActions.java:803-826 | definition of the records an import takes; its properties are proved in Gui.SelectImportsCancelPersists, Gui.SelectImportsFacts, Gui.SelectImportsOrder and Gui.KeepExistingSurvives |
| Gui.DatabaseActions.constructor | src/com/_17od/upm/gui/DatabaseActions.java:69-74 | the fields start as declared: the local copy is dirty, no reload is pending, and no save has been made |
| Gui.DatabaseActions.SetLocalDatabaseDirty | src/com/_17od/upm/gui/DatabaseActions.java:912-929 | sets the flag and nothing else of the state |
| Gui.DatabaseActions.SaveDatabase | src/com/_17od/upm/gui/DatabaseActions.java:899-909 | records the save URL of the current accounts and marks the copy dirty |
| Gui.DatabaseActions.GetAccountNames | src/com/_17od/upm/gui/DatabaseActions.java:295-304 | the names of the database's accounts, position by position in the model's map order |
| Gui.DatabaseActions.Filter | src/com/_17od/upm/gui/DatabaseActions.java:485-494 | the names of the list that match the lower-cased search text, in list order |
| Gui.DatabaseActions.DoOpenDatabaseActions | src/com/_17od/upm/gui/DatabaseActions.java:229-271 | the copy is marked dirty, any reload is cleared, and the name list is rebuilt to match the database |
| Gui.DatabaseActions.NewDatabase | src/com/_17od/upm/gui/DatabaseActions.java:95-102 | an empty database with default options and an empty name list, opened |
| Gui.DatabaseActions.OpenDatabaseWithPassword | src/com/_17od/upm/gui/DatabaseActions.java:338-341 | loads the database and leaves the name list and flags unchanged; a failed load throws and changes nothing |
| Gui.DatabaseActions.OpenDatabase | src/com/_17od/upm/gui/DatabaseActions.java:344-348 | loads the database and runs the open actions, so the name list matches it; a failed load throws and changes nothing |
| Gui.DatabaseActions.AddAccount | src/com/_17od/upm/gui/DatabaseActions.java:374-397 | with the gate closed or the dialog cancelled, nothing changes. Otherwise the account replaces any account of its name, one save is recorded and the name is appended to the list. The name list stays in sync when the name was new. Names stay distinct |
| Gui.DatabaseActions.DeleteAccount | src/com/_17od/upm/gui/DatabaseActions.java:351-371 | with the gate closed or no confirmation, nothing changes. A selection missing from the list throws at `remove(-1)` with nothing changed. Otherwise the name leaves the list at its first index, its account leaves the database and one save is recorded. The name list stays in sync |
| Gui.DatabaseActions.EditAccount | src/com/_17od/upm/gui/DatabaseActions.java:441-482 | with the gate closed, nothing changes. A missing account throws "account doesn't exist". A confirmed change stores the edit and moves the authentication entry on a rename. A rename also replaces the name in the list; a rename of a name missing from the list throws after the database changed and before the save |
| Gui.DatabaseActions.StoreEdit | src/com/_17od/upm/gui/DatabaseActions.java:460-479 | the database becomes the edited one and names stay distinct. Without a rename the list is kept and one save is recorded. A rename of a name missing from the list throws with no save; otherwise the old name is replaced at the end of the list and one save is recorded |
| Gui.DatabaseActions.RenameInNameList | src/com/_17od/upm/gui/DatabaseActions.java:472-474 | a name missing from the list throws at `remove(-1)` with the list unchanged; otherwise the first entry of the old name is removed and the new name appended; nothing else changes |
| Gui.DatabaseActions.ImportAccounts | src/com/_17od/upm/gui/DatabaseActions.java:784-848 | with the gate closed or no file chosen, nothing changes. An unreadable or malformed file is reported with nothing changed. A cancelled or empty selection changes nothing. Otherwise the selected accounts are upserted in order, one save is recorded and the name list is rebuilt. An existing account whose every record was answered "Keep Existing" is unchanged |
| Gui.DatabaseActions.PickImports | src/com/_17od/upm/gui/DatabaseActions.java:803-826 | the loop's result is the selection `SelectImports` describes |
| Gui.DatabaseActions.ApplyImports | src/com/_17od/upm/gui/DatabaseActions.java:828-836 | the selected accounts are upserted in order, one save is recorded and the name list matches the database |
| Gui.DatabaseActions.ShowDatabaseProperties | src/com/_17od/upm/gui/DatabaseActions.java:578-597 | with the gate open, the database is saved if the dialog asks; a transport failure offers to detach, and a yes clears the remote location and authentication entry and saves; other sync exceptions escape; accounts, names and the reload flag never change |

## Left out

- Network I/O is left out. `load` takes the response lines as a parameter, and `save` returns the URL it would request. Response codes, connection errors and the `IOException`s they raise are not modelled.
- The body of `syncWithRemoteDatabase` is left out: downloading the remote copy, the password prompts and the merge. Its outcome is a parameter of every gated action.
- In the code as written every call of the sync throws a `NullPointerException` at line 702, because `fileMonitor` is null. The model allows every outcome, so that every branch stays reachable.
- The window, the dialogs, the list view and the status bar are left out. Dialog results are parameters, `populateListview` and the list-view reselection in `filter` are not modelled, and `filter` returns the list it would show.
- Each action's refresh call to `filter()` is left out, because it only repopulates the view.
- The account dialog's validation of new names is left out. Because of this, adding an account whose name is already listed, or renaming to one, can leave a name in the list twice. The contracts state sync only for the cases where that cannot happen.
- `FileMonitor`, the file-change callback, the auto-lock timer and `configureAutoLock` are left out; they are threads and timers.
- Encryption is left out: `EncryptionService`, `DESDecryptionService`, the master password and `changeMasterPassword`. Nothing in the modelled code path uses it.
- Reloading, closing, exporting from the GUI, and `openDatabaseFromURL` are left out; they are not among the modelled operations.
- Editing inside `DatabasePropertiesDialog` is left out. Only its "needs saving" answer is a parameter.
- The CSV tokenizer (`CsvReader`) is left out. `Unmarshal` starts from the records it would produce, and `None` stands for a file that cannot be read.
- Gui.DatabaseActions.Filter: lower-casing is a parameter, so Java's locale-dependent `toLowerCase` and its Unicode case mapping are not modelled.
- Gui.DatabaseActions.constructor: the Java constructor leaves `database` and `accountNames` null until a database is opened. The model starts from an empty database and an empty list, so the null-pointer failures of actions run before opening are not modelled.
- Persistence.ReadFile: does not model `is.close()` in the `finally` block or the `IOException` it may raise, and does not model that the stream stays open when `new byte[(int) file.length()]` throws before the `try`; the model has no resource state to close.
- The console logging of `load` (`System.out.println` of the request, the response code, the response and each put) is left out; it changes no state.
- `PasswordDatabase.java` and `AccountInformation.java` are not part of this model.
  - The map's iteration order is taken to be the order of the account sequence, and `Put` appends a new name at the end. Java's `HashMap` iterates in hash order instead. So the order in which Persistence.PutAllDistinct, PersistenceFormats.LoadRoundTrip, Persistence.Save, PersistenceFormats.SaveRoundTrip and Gui.DatabaseActions.GetAccountNames list accounts, segments or names is the model's order, not the program's; in the program only the set of accounts agrees.
  - A new database is taken to start with empty accounts and empty options.
