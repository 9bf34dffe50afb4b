/**
 * `S3Uploader.read_credentials`: pick the access key pair out of the rows
 * of an already parsed credentials CSV file.
 */
module Credentials {
  import opened Wrappers

  /** One CSV row as `csv.DictReader` yields it: column name to cell text. */
  type Row = map<string, string>

  const AccessKeyIdColumn := "Access key ID"
  const SecretAccessKeyColumn := "Secret access key"

  /** The credentials file: it could not be opened or parsed, or it gave these rows. */
  datatype CsvFile = Unreadable | Rows(rows: seq<Row>)

  datatype Credentials = Credentials(accessKeyId: string, secretAccessKey: string)

  /** Why no credentials were found; the source re-raises either as "Failed to read credentials from file". */
  datatype Cause = FileUnreadable | NoCompleteRow
  datatype CredentialError = FailedToRead(cause: Cause)

  /** `row.get(column)` is truthy: present and not the empty string. */
  predicate Filled(row: Row, column: string)
  {
    column in row && row[column] != ""
  }

  predicate Complete(row: Row)
  {
    Filled(row, AccessKeyIdColumn) && Filled(row, SecretAccessKeyColumn)
  }

  function CredentialsOf(row: Row): Credentials
    requires Complete(row)
  {
    Credentials(row[AccessKeyIdColumn], row[SecretAccessKeyColumn])
  }

  /** The index of the first row holding both key columns, if any. */
  function FirstComplete(rows: seq<Row>): (r: Option<nat>)
    ensures r.Some? ==> r.value < |rows| && Complete(rows[r.value])
    ensures r.Some? ==> forall j :: 0 <= j < r.value ==> !Complete(rows[j])
    ensures r.None? <==> forall j :: 0 <= j < |rows| ==> !Complete(rows[j])
    decreases |rows|
  {
    if rows == [] then None
    else if Complete(rows[0]) then Some(0)
    else
      match FirstComplete(rows[1..])
      case None => None
      case Some(i) => Some(i + 1)
  }

  /** The credentials `read_credentials` returns, or the wrapped error it raises. */
  function Resolve(file: CsvFile): Result<Credentials, CredentialError>
  {
    match file
    case Unreadable => Failure(FailedToRead(FileUnreadable))
    case Rows(rows) =>
      match FirstComplete(rows)
      case None => Failure(FailedToRead(NoCompleteRow))
      case Some(i) => Success(CredentialsOf(rows[i]))
  }

  /** The loop over the rows with its early return. */
  method ReadCredentials(file: CsvFile) returns (r: Result<Credentials, CredentialError>)
    ensures r == Resolve(file)
    ensures file.Rows? && r.Success? ==>
      exists i :: 0 <= i < |file.rows| && Complete(file.rows[i]) && r.value == CredentialsOf(file.rows[i])
  {
    if file.Unreadable? {
      return Failure(FailedToRead(FileUnreadable));
    }
    var rows := file.rows;
    var i := 0;
    while i < |rows|
      invariant 0 <= i <= |rows|
      invariant forall j :: 0 <= j < i ==> !Complete(rows[j])
    {
      var row := rows[i];
      if AccessKeyIdColumn in row && row[AccessKeyIdColumn] != ""
        && SecretAccessKeyColumn in row && row[SecretAccessKeyColumn] != ""
      {
        FirstIsFirst(rows, i);
        return Success(Credentials(row[AccessKeyIdColumn], row[SecretAccessKeyColumn]));
      }
      i := i + 1;
    }
    return Failure(FailedToRead(NoCompleteRow));
  }

  /** A complete row with no complete row before it is the one `FirstComplete` finds. */
  lemma FirstIsFirst(rows: seq<Row>, i: nat)
    requires i < |rows| && Complete(rows[i])
    requires forall j :: 0 <= j < i ==> !Complete(rows[j])
    ensures FirstComplete(rows) == Some(i)
  {
  }

  /** The row of the test suite: a header and one pair gives exactly that pair. */
  lemma SingleRowExample()
    ensures Resolve(Rows([map[AccessKeyIdColumn := "test_access_key", SecretAccessKeyColumn := "test_secret_key"]]))
      == Success(Credentials("test_access_key", "test_secret_key"))
  {
  }

  /** Earlier rows that miss a key are skipped. */
  lemma SkipsIncompleteRows(incomplete: seq<Row>, row: Row, later: seq<Row>)
    requires forall j :: 0 <= j < |incomplete| ==> !Complete(incomplete[j])
    requires Complete(row)
    ensures Resolve(Rows(incomplete + [row] + later)) == Success(CredentialsOf(row))
  {
    var rows := incomplete + [row] + later;
    assert rows[|incomplete|] == row;
    FirstIsFirst(rows, |incomplete|);
  }
}
