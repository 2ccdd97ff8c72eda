/** `AccountFacade`: the account table, the lookups the manager runs on it,
    the write `edit` performs and the classification of what `create` can
    fail with. */
module Facades {
  import opened JavaTypes
  import opened Exceptions
  import opened Accounts

  /** The unique index names a duplicate-key message mentions. */
  const LoginIndex: string := "account_login_data_login_uindex"
  const EmailIndex: string := "account_personal_data_email_uindex"

  /** `String.contains`. */
  function Contains(s: string, part: string): (r: bool)
    ensures part <= s ==> r
    ensures r ==> |part| <= |s|
  {
    part <= s || (s != [] && Contains(s[1..], part))
  }

  /** Where `Contains` finds its part: a position at which it starts. */
  lemma {:induction false} ContainsAt(s: string, part: string) returns (i: nat)
    requires Contains(s, part)
    ensures i + |part| <= |s| && s[i..i + |part|] == part
  {
    if part <= s {
      i := 0;
    } else {
      var j := ContainsAt(s[1..], part);
      assert s[1..][j..j + |part|] == s[j + 1..j + 1 + |part|];
      i := j + 1;
    }
  }

  /** `contains` holds exactly when the part occurs somewhere in the text. */
  lemma ContainsIsInfix(s: string, part: string)
    ensures Contains(s, part) <==> exists i, j :: 0 <= i <= j <= |s| && s[i..j] == part
  {
    if Contains(s, part) {
      var i := ContainsAt(s, part);
      assert s[i..i + |part|] == part;
    }
    if exists i, j :: 0 <= i <= j <= |s| && s[i..j] == part {
      var i, j :| 0 <= i <= j <= |s| && s[i..j] == part;
      assert s == s[..i] + part + s[j..];
      ContainsInfix(s[..i], part, s[j..]);
    }
  }

  /** A text contains every text placed inside it. */
  lemma {:induction false} ContainsInfix(before: string, part: string, after: string)
    ensures Contains(before + part + after, part)
  {
    if before == [] {
      assert before + part + after == part + after;
    } else {
      assert (before + part + after)[1..] == before[1..] + part + after;
      ContainsInfix(before[1..], part, after);
    }
  }

  /** What `super.create` can throw. */
  datatype CreateFailure =
    | DatabaseFailure(cause: FailureCause)       // org.eclipse.persistence.exceptions.DatabaseException
    | PersistenceFailure(message: Option<string>) // javax.persistence.PersistenceException
    | OtherFailure(error: Error)                  // anything the two catch clauses do not name

  /** The class of a `DatabaseException`'s cause. */
  datatype FailureCause = NonTransientConnection | OtherCause

  /** The catch clauses of `create`, tried in order: a database failure is a
      connection error exactly when its cause is a non-transient connection
      error; a persistence failure naming the login index is a duplicate
      login, else one naming the e-mail index a duplicate e-mail, else a query
      error; a message that is null makes `contains` throw. */
  function ClassifyCreateFailure(f: CreateFailure): (e: Error)
    ensures f.OtherFailure? ==> e == f.error
    ensures !f.OtherFailure? ==> (e == DatabaseConnection <==> f == DatabaseFailure(NonTransientConnection))
    ensures !f.OtherFailure? ==> (e == LoginAlreadyExists <==>
      f.PersistenceFailure? && f.message.Some? && Contains(f.message.value, LoginIndex))
    ensures !f.OtherFailure? ==> (e == EmailAlreadyExists <==>
      f.PersistenceFailure? && f.message.Some? && !Contains(f.message.value, LoginIndex)
      && Contains(f.message.value, EmailIndex))
    ensures !f.OtherFailure? ==> (e == NullPointer <==> f == PersistenceFailure(None))
    ensures !f.OtherFailure? ==> (e == DatabaseQuery <==>
      f == DatabaseFailure(OtherCause)
      || (f.PersistenceFailure? && f.message.Some? && !Contains(f.message.value, LoginIndex)
          && !Contains(f.message.value, EmailIndex)))
  {
    match f
    case DatabaseFailure(cause) =>
      (match cause
       case NonTransientConnection => DatabaseConnection
       case OtherCause => DatabaseQuery)
    case PersistenceFailure(message) =>
      if message.None? then NullPointer
      else if Contains(message.value, LoginIndex) then LoginAlreadyExists
      else if Contains(message.value, EmailIndex) then EmailAlreadyExists
      else DatabaseQuery
    case OtherFailure(error) => error
  }

  /** A persistence failure whose message names both indexes is reported as
      a duplicate login: the login check comes first. */
  lemma BothIndexesMeanLogin(before: string, middle: string, after: string)
    ensures ClassifyCreateFailure(PersistenceFailure(Some(before + LoginIndex + middle + EmailIndex + after)))
      == LoginAlreadyExists
    ensures ClassifyCreateFailure(PersistenceFailure(Some(before + EmailIndex + middle + LoginIndex + after)))
      == LoginAlreadyExists
  {
    assert before + LoginIndex + middle + EmailIndex + after == before + LoginIndex + (middle + EmailIndex + after);
    ContainsInfix(before, LoginIndex, middle + EmailIndex + after);
    assert before + EmailIndex + middle + LoginIndex + after == (before + EmailIndex + middle) + LoginIndex + after;
    ContainsInfix(before + EmailIndex + middle, LoginIndex, after);
  }

  /** How a row is looked up. */
  datatype Key = ByLogin(login: string) | ByToken(token: string) | ByMail(email: string)

  predicate Matches(r: AccountRecord, key: Key) {
    match key
    case ByLogin(login) => r.login == login
    case ByToken(token) => r.verificationToken == token
    case ByMail(email) => r.email == email
  }

  /** The first row matching the key, if there is one. */
  function Find(rows: seq<AccountRecord>, key: Key): (r: Option<AccountRecord>)
    ensures r.Some? <==> exists i :: 0 <= i < |rows| && Matches(rows[i], key)
    ensures r.Some? ==> r.value in rows && Matches(r.value, key)
  {
    if rows == [] then None
    else if Matches(rows[0], key) then Some(rows[0])
    else Find(rows[1..], key)
  }

  /** The unique constraints of the table: no two rows share an id, a login
      or an e-mail, and every row has an id. */
  predicate UniqueKeys(rows: seq<AccountRecord>) {
    && (forall r :: r in rows ==> r.id.Some?)
    && (forall i, j :: 0 <= i < j < |rows| ==>
          rows[i].id != rows[j].id && rows[i].login != rows[j].login && rows[i].email != rows[j].email)
  }

  /** No stored row has the given id, login or e-mail. */
  predicate FreshKeys(rows: seq<AccountRecord>, id: Option<Long>, login: string, email: string) {
    forall r :: r in rows ==> r.id != id && r.login != login && r.email != email
  }

  /** Adding a row to a table with unique keys keeps them unique exactly
      when the row has an id and its id, login and e-mail are all new. */
  lemma AppendKeepsUniqueKeys(rows: seq<AccountRecord>, rec: AccountRecord)
    requires UniqueKeys(rows)
    ensures UniqueKeys(rows + [rec]) <==> rec.id.Some? && FreshKeys(rows, rec.id, rec.login, rec.email)
  {
    var s := rows + [rec];
    if UniqueKeys(s) {
      forall r | r in rows
        ensures r.id != rec.id && r.login != rec.login && r.email != rec.email
      {
        var i :| 0 <= i < |rows| && rows[i] == r;
        assert s[i] == r && s[|rows|] == rec;
      }
    }
  }

  predicate Stored(rows: seq<AccountRecord>, id: Option<Long>) {
    exists i :: 0 <= i < |rows| && rows[i].id == id
  }

  /** What `edit` (a JPA merge) writes: the row with the entity's id takes
      the entity's state, except login and e-mail, which are not updatable
      and keep their stored values; an entity with no stored row is
      inserted. */
  function Merge(rows: seq<AccountRecord>, rec: AccountRecord): (r: seq<AccountRecord>)
    ensures Stored(rows, rec.id) ==> |r| == |rows|
    ensures !Stored(rows, rec.id) ==> r == rows + [rec]
  {
    if rows == [] then [rec]
    else if rows[0].id == rec.id then [rec.(login := rows[0].login, email := rows[0].email)] + rows[1..]
    else [rows[0]] + Merge(rows[1..], rec)
  }

  /** Merging into the first row with the entity's id replaces that row and
      touches no other. */
  lemma {:induction false} MergeAt(rows: seq<AccountRecord>, rec: AccountRecord, k: nat)
    requires k < |rows| && rows[k].id == rec.id
    requires forall i :: 0 <= i < k ==> rows[i].id != rec.id
    ensures |Merge(rows, rec)| == |rows|
    ensures Merge(rows, rec)[k] == rec.(login := rows[k].login, email := rows[k].email)
    ensures forall i :: 0 <= i < |rows| && i != k ==> Merge(rows, rec)[i] == rows[i]
  {
    if k > 0 {
      MergeAt(rows[1..], rec, k - 1);
    }
  }

  /** A merge keeps the unique constraints, and afterwards looking up the
      account's (unchanged) login finds the merged state. */
  lemma MergeKeepsUniqueKeys(rows: seq<AccountRecord>, rec: AccountRecord)
    requires UniqueKeys(rows) && Stored(rows, rec.id)
    ensures UniqueKeys(Merge(rows, rec))
    ensures exists k :: (0 <= k < |rows| && rows[k].id == rec.id &&
      Find(Merge(rows, rec), ByLogin(rows[k].login)) == Some(rec.(login := rows[k].login, email := rows[k].email)))
  {
    var k :| 0 <= k < |rows| && rows[k].id == rec.id;
    MergeAt(rows, rec, k);
    var m := Merge(rows, rec);
    FindUnique(m, k, ByLogin(rows[k].login));
  }

  /** In a table with unique keys, a lookup by a row's login finds that row. */
  lemma FindUnique(rows: seq<AccountRecord>, k: nat, key: Key)
    requires k < |rows| && Matches(rows[k], key)
    requires forall i :: 0 <= i < |rows| && i != k ==> !Matches(rows[i], key)
    ensures Find(rows, key) == Some(rows[k])
  {
  }

  class AccountFacade {
    var rows: seq<AccountRecord>

    ghost predicate Valid()
      reads this
    {
      UniqueKeys(rows)
    }

    /** The table as the database holds it, under its unique constraints. */
    constructor (rows: seq<AccountRecord>)
      requires UniqueKeys(rows)
      ensures this.rows == rows && Valid()
    {
      this.rows := rows;
    }

    /** `edit(account)` inside a transaction that commits when `commit`
        holds; a rolled-back transaction leaves the table as it was. Merging
        a stored entity keeps the keys unique; an entity with no stored row
        is inserted, which keeps them unique exactly when it has an id and
        its id, login and e-mail are all new. */
    method Edit(account: Account, commit: bool)
      modifies this
      ensures rows == if commit then Merge(old(rows), account.Record()) else old(rows)
      ensures old(Valid()) && Stored(old(rows), account.id) ==> Valid()
      ensures old(Valid()) && commit && !Stored(old(rows), account.id) ==>
        (Valid() <==> account.id.Some? && FreshKeys(old(rows), account.id, account.login, account.email))
    {
      if commit {
        if Valid() && Stored(rows, account.id) {
          MergeKeepsUniqueKeys(rows, account.Record());
        }
        if Valid() && !Stored(rows, account.id) {
          AppendKeepsUniqueKeys(rows, account.Record());
        }
        rows := Merge(rows, account.Record());
      }
    }

    /** `create(account)`: `failure` is what `super.create` threw, if
        anything. On success the generated id `newId` is given to the entity
        and its row is added; on failure the table and the entity are left
        alone and the failure is classified. */
    method Create(account: Account, newId: Long, failure: Option<CreateFailure>) returns (r: Result<()>)
      modifies this, account
      ensures failure.None? ==> (r == Ok(()) && account.Record() == old(account.Record()).(id := Some(newId))
        && rows == old(rows) + [account.Record()])
      ensures failure.Some? ==> (r == Err(ClassifyCreateFailure(failure.value))
        && account.Record() == old(account.Record()) && rows == old(rows))
      ensures old(Valid()) && failure.None? && FreshKeys(old(rows), Some(newId), account.login, account.email)
        ==> Valid()
    {
      match failure
      case None =>
        account.id := Some(newId);
        if Valid() && FreshKeys(rows, Some(newId), account.login, account.email) {
          AppendKeepsUniqueKeys(rows, account.Record());
        }
        rows := rows + [account.Record()];
        r := Ok(());
      case Some(f) =>
        r := Err(ClassifyCreateFailure(f));
    }
  }
}
