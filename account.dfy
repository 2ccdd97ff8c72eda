/** The `Account` entity: login data, personal data and authentication data
    of one user, with the user's password history. */
module Accounts {
  import opened JavaTypes
  import opened PreviousPasswords

  /** The persistent state of an account, as one value: what a stored row
      holds and what the entity's fields hold at one moment. */
  datatype AccountRecord = AccountRecord(
    id: Option<Long>,
    login: string,
    password: string,
    active: bool,
    confirmed: bool,
    previousPasswords: seq<PreviousPassword>,
    firstname: string,
    lastname: string,
    email: string,
    lastSuccessfulAuth: Option<Timestamp>,
    lastFailedAuth: Option<Timestamp>,
    lastAuthIp: Option<string>,
    failedAuthCounter: Int32,
    forcePasswordChange: bool,
    verificationToken: string)

  /** The bean-validation and column constraints of the entity: login, first
      name, last name and e-mail of 1 to 32 characters, a password of exactly
      64 (a SHA-256 digest in hex), an address of at most 255, and a history
      whose records are valid, belong to this account and repeat no hash. */
  predicate RecordValid(r: AccountRecord) {
    && 1 <= |r.login| <= 32
    && |r.password| == 64
    && 1 <= |r.firstname| <= 32
    && 1 <= |r.lastname| <= 32
    && 1 <= |r.email| <= 32
    && (r.lastAuthIp.Some? ==> |r.lastAuthIp.value| <= 255)
    && (forall p :: p in r.previousPasswords ==> p.Valid() && p.accountId == r.id)
    && NoRepeatedPassword(r.previousPasswords)
  }

  /** A password change keeps a valid account valid exactly when the new
      digest has 64 characters, the account has an id to own the new history
      record, and the digest is not yet in the history. */
  lemma PasswordChangeKeepsValid(r: AccountRecord, hash: string)
    requires RecordValid(r)
    ensures RecordValid(r.(password := hash, previousPasswords := r.previousPasswords + [Recording(hash, r.id)]))
      <==> |hash| == 64 && r.id.Some? && Some(hash) !in Passwords(r.previousPasswords)
  {
    var p := Recording(hash, r.id);
    var s := r.(password := hash, previousPasswords := r.previousPasswords + [p]);
    AppendKeepsNoRepeat(r.previousPasswords, p);
    if RecordValid(s) {
      assert p in s.previousPasswords;
    }
  }

  /** The comparison `equals` makes of two ids, as written there. It holds
      exactly when both ids are null or both are set and equal. */
  function AccountIdsEqual(a: Option<Long>, b: Option<Long>): (r: bool)
    ensures r <==> a == b
  {
    (a.Some? || b.None?) && (a.None? || (b.Some? && a.value == b.value))
  }

  /** `String.replace("-", "")`: the text with every dash taken out and every
      other character kept, in order. */
  function StripDashes(s: string): (r: string)
    ensures '-' !in r
    ensures forall c :: c in r <==> c in s && c != '-'
    ensures |r| <= |s|
  {
    if s == [] then []
    else (if s[0] == '-' then [] else [s[0]]) + StripDashes(s[1..])
  }

  lemma {:induction false} StripDashesAppend(a: string, b: string)
    ensures StripDashes(a + b) == StripDashes(a) + StripDashes(b)
  {
    if a == [] {
      assert a + b == b;
    } else {
      assert (a + b)[1..] == a[1..] + b;
      StripDashesAppend(a[1..], b);
    }
  }

  lemma {:induction false} StripDashesIdentity(s: string)
    requires '-' !in s
    ensures StripDashes(s) == s
  {
    if s != [] {
      StripDashesIdentity(s[1..]);
    }
  }

  /** Stripping a text whose first dash is at `k` keeps the part before it
      and goes on after it. */
  lemma {:induction false} StripDashesAt(s: string, k: nat)
    requires k < |s| && s[k] == '-' && forall i :: 0 <= i < k ==> s[i] != '-'
    ensures StripDashes(s) == s[..k] + StripDashes(s[k + 1..])
  {
    var t := s[1..];
    if k == 0 {
      assert StripDashes(s) == StripDashes(t);
    } else {
      assert StripDashes(s) == [s[0]] + StripDashes(t);
      forall i | 0 <= i < k - 1 ensures t[i] != '-' {
        assert t[i] == s[i + 1];
      }
      StripDashesAt(t, k - 1);
      assert t[k..] == s[k + 1..];
      assert [s[0]] + t[..k - 1] == s[..k];
    }
  }

  /** The canonical text of a `java.util.UUID`: 36 characters, with dashes at
      positions 8, 13, 18 and 23 and nowhere else. */
  predicate IsUuidText(s: string) {
    |s| == 36 && forall i :: 0 <= i < |s| ==> (s[i] == '-' <==> i == 8 || i == 13 || i == 18 || i == 23)
  }

  /** A verification token made from a UUID's text has 32 characters and no
      dash. */
  lemma UuidTokenLength(uuid: string)
    requires IsUuidText(uuid)
    ensures |StripDashes(uuid)| == 32
  {
    var u := uuid;
    StripDashesAt(u, 8);
    StripDashesAt(u[9..], 4);
    assert u[9..][5..] == u[14..];
    StripDashesAt(u[14..], 4);
    assert u[14..][5..] == u[19..];
    StripDashesAt(u[19..], 4);
    assert u[19..][5..] == u[24..];
    StripDashesIdentity(u[24..]);
  }

  class Account {
    var id: Option<Long>
    var login: string
    var password: string
    var active: bool
    var confirmed: bool
    var previousPasswords: seq<PreviousPassword>
    var firstname: string
    var lastname: string
    var email: string
    var lastSuccessfulAuth: Option<Timestamp>
    var lastFailedAuth: Option<Timestamp>
    var lastAuthIp: Option<string>
    var failedAuthCounter: Int32
    var forcePasswordChange: bool
    var verificationToken: string

    /** The entity's persistent state. */
    function Record(): AccountRecord
      reads this
    {
      AccountRecord(id, login, password, active, confirmed, previousPasswords,
        firstname, lastname, email, lastSuccessfulAuth, lastFailedAuth,
        lastAuthIp, failedAuthCounter, forcePasswordChange, verificationToken)
    }

    ghost predicate Valid()
      reads this
    {
      RecordValid(Record())
    }

    /** Every history record has a password, as its column demands. */
    predicate HistoryHasPasswords()
      reads this
    {
      forall p :: p in previousPasswords ==> p.password.Some?
    }

    /** `new Account()`: active, forced to change its password, not yet
        confirmed, no failed authentications, and a verification token made
        from a random UUID (given here as `uuid`) with its dashes removed.
        The string fields Java leaves null start empty, which no valid
        account has. */
    constructor (uuid: string)
      ensures id.None? && active && forcePasswordChange && !confirmed
      ensures failedAuthCounter == 0 && previousPasswords == []
      ensures login == password == firstname == lastname == email == ""
      ensures lastSuccessfulAuth.None? && lastFailedAuth.None? && lastAuthIp.None?
      ensures verificationToken == StripDashes(uuid) && '-' !in verificationToken
      ensures !Valid()
    {
      id := None;
      login, password, firstname, lastname, email := "", "", "", "", "";
      active := true;
      confirmed := false;
      previousPasswords := [];
      lastSuccessfulAuth, lastFailedAuth, lastAuthIp := None, None, None;
      failedAuthCounter := 0;
      forcePasswordChange := true;
      verificationToken := StripDashes(uuid);
    }

    /** The entity the persistence layer builds from a stored row. */
    constructor Load(r: AccountRecord)
      ensures Record() == r
    {
      id, login, password, active, confirmed := r.id, r.login, r.password, r.active, r.confirmed;
      previousPasswords := r.previousPasswords;
      firstname, lastname, email := r.firstname, r.lastname, r.email;
      lastSuccessfulAuth, lastFailedAuth, lastAuthIp := r.lastSuccessfulAuth, r.lastFailedAuth, r.lastAuthIp;
      failedAuthCounter, forcePasswordChange, verificationToken := r.failedAuthCounter, r.forcePasswordChange, r.verificationToken;
    }

    /** `setPassword(hash)`: only the password changes. */
    method SetPassword(hash: string)
      modifies this
      ensures Record() == old(Record()).(password := hash)
    {
      password := hash;
    }

    /** `getPreviousPasswordCollection().add(record)`: the record joins the
        end of the history, and nothing else changes. */
    method AddPreviousPassword(record: PreviousPassword)
      modifies this
      ensures Record() == old(Record()).(previousPasswords := old(previousPasswords) + [record])
    {
      previousPasswords := previousPasswords + [record];
    }

    /** `equals(Object)`: only another `Account` can be equal, and then
        exactly when the ids are both null or both set and equal. */
    function Equals(other: object?): (r: bool)
      reads this, other
      ensures r <==> other is Account && id == (other as Account).id
    {
      other is Account && AccountIdsEqual(id, (other as Account).id)
    }

    function HashCode(): (h: bv32)
      reads this
      ensures id.None? ==> h == 0
    {
      IdHashCode(id)
    }
  }

  /** `equals` is an equivalence on accounts and `hashCode` agrees with it. */
  lemma EqualsIsEquivalence(a: Account, b: Account, c: Account)
    ensures a.Equals(a)
    ensures a.Equals(b) ==> b.Equals(a)
    ensures a.Equals(b) && b.Equals(c) ==> a.Equals(c)
    ensures a.Equals(b) ==> a.HashCode() == b.HashCode()
    ensures !a.Equals(null)
  {
  }
}
