/**
 * AccountsCSVMarshaller: accounts to and from rows of five columns
 * (name, user id, password, url, notes). Reading and writing the file and
 * splitting its text into records belong to the CSV library and are not
 * modelled; `Unmarshal` starts from the records the reader hands back.
 */
module CsvMarshaller {
  import opened Wrappers
  import opened Accounts

  /** The number of columns an account takes. */
  const Columns: nat := 5

  /** Why an import fails: a record without exactly five columns (numbered from 1), or a file that cannot be read. */
  datatype ImportError = NotCsvFile(recordNumber: nat) | CannotRead

  /** `new AccountInformation(get(0), …, get(4))` on a five-column record. */
  function AccountFromRecord(row: seq<string>): Account
    requires |row| == Columns
  {
    Account(row[0], row[1], row[2], row[3], row[4])
  }

  /** `getAccountAsStringArray`: the account's fields in column order. */
  function AccountAsStringArray(a: Account): (row: seq<string>)
    ensures |row| == Columns
    ensures AccountFromRecord(row) == a
  {
    [a.name, a.userId, a.password, a.url, a.notes]
  }

  /** Every five-column record is the row of the account read from it. */
  lemma RecordRoundTrip(row: seq<string>)
    requires |row| == Columns
    ensures AccountAsStringArray(AccountFromRecord(row)) == row
  {
  }

  /** The accounts of the records in order, or the number of the first record that has not five columns. */
  function ParseRecords(rows: seq<seq<string>>): Result<seq<Account>, ImportError>
  {
    if |rows| == 0 then Success([])
    else match ParseRecords(rows[..|rows| - 1])
      case Failure(e) => Failure(e)
      case Success(accounts) =>
        var row := rows[|rows| - 1];
        if |row| != Columns then Failure(NotCsvFile(|rows|))
        else Success(accounts + [AccountFromRecord(row)])
  }

  /**
   * `unmarshal`: one account per record, in file order; the first record
   * without exactly five columns aborts the import. A file that cannot be
   * read (`None`) fails likewise.
   */
  method Unmarshal(records: Option<seq<seq<string>>>) returns (r: Result<seq<Account>, ImportError>)
    ensures records.None? ==> r == Failure(CannotRead)
    ensures records.Some? ==> r == ParseRecords(records.value)
  {
    if records.None? {
      return Failure(CannotRead);
    }
    var rows := records.value;
    var accounts: seq<Account> := [];
    var i := 0;
    while i < |rows|
      invariant 0 <= i <= |rows|
      invariant ParseRecords(rows[..i]) == Success(accounts)
    {
      assert rows[..i + 1][..i] == rows[..i];
      if |rows[i]| != Columns {
        ParseRecordsFailurePersists(rows, i + 1);
        return Failure(NotCsvFile(i + 1));
      }
      accounts := accounts + [AccountFromRecord(rows[i])];
      i := i + 1;
    }
    assert rows[..i] == rows;
    r := Success(accounts);
  }

  /** Once a prefix of the records fails, the whole import fails with the same error. */
  lemma {:induction false} ParseRecordsFailurePersists(rows: seq<seq<string>>, k: nat)
    requires k <= |rows| && ParseRecords(rows[..k]).Failure?
    ensures ParseRecords(rows) == ParseRecords(rows[..k])
    decreases |rows| - k
  {
    if k < |rows| {
      assert rows[..k + 1][..k] == rows[..k];
      ParseRecordsFailurePersists(rows, k + 1);
    } else {
      assert rows[..k] == rows;
    }
  }

  /** An import succeeds exactly when every record has five columns, and then yields one account per record, in order. */
  lemma {:induction false} ParseRecordsSuccess(rows: seq<seq<string>>)
    ensures ParseRecords(rows).Success? <==> forall i :: 0 <= i < |rows| ==> |rows[i]| == Columns
    ensures ParseRecords(rows).Success? ==>
      |ParseRecords(rows).value| == |rows| &&
      forall i :: 0 <= i < |rows| ==> ParseRecords(rows).value[i] == AccountFromRecord(rows[i])
  {
    if |rows| > 0 {
      var init := rows[..|rows| - 1];
      ParseRecordsSuccess(init);
      assert forall i :: 0 <= i < |init| ==> init[i] == rows[i];
    }
  }

  /** A failed import names the first record, counting from 1, whose column count is not five. */
  lemma {:induction false} ParseRecordsFailure(rows: seq<seq<string>>)
    requires ParseRecords(rows).Failure?
    ensures ParseRecords(rows).error.NotCsvFile?
    ensures var n := ParseRecords(rows).error.recordNumber;
      1 <= n <= |rows| && |rows[n - 1]| != Columns &&
      forall i :: 0 <= i < n - 1 ==> |rows[i]| == Columns
  {
    var init := rows[..|rows| - 1];
    assert forall i :: 0 <= i < |init| ==> init[i] == rows[i];
    if ParseRecords(init).Failure? {
      ParseRecordsFailure(init);
    } else {
      ParseRecordsSuccess(init);
    }
  }

  /** The rows an export of `accounts` would write: one per account, fields in column order. */
  function ExportRows(accounts: seq<Account>): (rows: seq<seq<string>>)
    ensures |rows| == |accounts|
    ensures forall i :: 0 <= i < |accounts| ==> rows[i] == AccountAsStringArray(accounts[i])
  {
    seq(|accounts|, i requires 0 <= i < |accounts| => AccountAsStringArray(accounts[i]))
  }

  /** Importing the rows of an export gives the exported accounts back, in order. */
  lemma ExportImportRoundTrip(accounts: seq<Account>)
    ensures ParseRecords(ExportRows(accounts)) == Success(accounts)
  {
    var rows := ExportRows(accounts);
    ParseRecordsSuccess(rows);
    assert forall i :: 0 <= i < |rows| ==> |rows[i]| == Columns;
    var parsed := ParseRecords(rows).value;
    assert parsed == accounts by {
      forall i | 0 <= i < |accounts| ensures parsed[i] == accounts[i] {
        assert parsed[i] == AccountFromRecord(AccountAsStringArray(accounts[i]));
      }
    }
  }

  /**
   * `marshal`: the loop visits every account, but the calls that would
   * open the file and write each account's row are commented out, so no
   * row is written.
   */
  method Marshal(accounts: seq<Account>) returns (written: seq<seq<string>>)
    ensures written == []
  {
    written := [];
    var i := 0;
    while i < |accounts|
      invariant 0 <= i <= |accounts|
      invariant written == []
    {
      var temp := accounts[i];
      i := i + 1;
    }
  }
}
