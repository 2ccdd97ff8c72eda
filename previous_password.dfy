/** The `PreviousPassword` entity: one row of an account's password history
    (table `password_history`). A record is only given its fields right after
    it is made, before it joins a history, so it is modelled as a value. */
module PreviousPasswords {
  import opened JavaTypes

  /** The owning account is kept as the `account_id` join column it is
      persisted as. */
  datatype PreviousPassword = PreviousPassword(
    id: Option<Long>,
    password: Option<string>,
    version: Long,
    accountId: Option<Long>)
  {
    /** `equals(Object)`: false when exactly one id is null or the ids
        differ, true otherwise, so two records that both lack an id are
        equal. */
    function Equals(other: PreviousPassword): (r: bool)
      ensures r <==> id == other.id
    {
      RecordIdsEqual(id, other.id)
    }

    function HashCode(): (h: bv32)
      ensures id.None? ==> h == 0
    {
      IdHashCode(id)
    }

    /** The column constraints: a password of 1 to 64 characters and a
        mandatory owning account. */
    predicate Valid() {
      password.Some? && 1 <= |password.value| <= 64 && accountId.Some?
    }
  }

  /** The comparison `equals` makes of two ids, as written there. It holds
      exactly when the ids are equal, null counting as equal to null. */
  function RecordIdsEqual(a: Option<Long>, b: Option<Long>): (r: bool)
    ensures r <==> a == b
  {
    if (a.None? && b.Some?) || (a.Some? && !(b.Some? && a.value == b.value)) then false
    else true
  }

  /** Two records that have no id yet are equal, whatever else they hold,
      as the warning in the source says; records are equal exactly when
      their ids are, and equal records have equal hash codes. */
  lemma EqualsComparesIdsOnly(a: PreviousPassword, b: PreviousPassword)
    ensures a.id.None? && b.id.None? ==> a.Equals(b)
    ensures a.Equals(b) <==> a.id == b.id
    ensures a.Equals(b) ==> a.HashCode() == b.HashCode()
  {
  }

  /** `new PreviousPassword()`: every field at its Java default. */
  function Blank(): (p: PreviousPassword)
    ensures p.id.None? && p.password.None? && p.version == 0 && p.accountId.None?
  {
    PreviousPassword(None, None, 0, None)
  }

  /** `new PreviousPassword(id)`: only the id is set. */
  function WithId(id: Long): (p: PreviousPassword)
    ensures p == Blank().(id := Some(id))
  {
    PreviousPassword(Some(id), None, 0, None)
  }

  /** `new PreviousPassword(id, password, version)`: id, password and version
      are set; the owner is left unset. */
  function WithFields(id: Long, password: string, version: Long): (p: PreviousPassword)
    ensures p == Blank().(id := Some(id), password := Some(password), version := version)
    ensures !p.Valid()
  {
    PreviousPassword(Some(id), Some(password), version, None)
  }

  /** The record `changePassword` builds for a new hash: a blank record given
      its owner and its password through the setters. */
  function Recording(hash: string, owner: Option<Long>): (p: PreviousPassword)
    ensures p == Blank().(accountId := owner, password := Some(hash))
    ensures owner.Some? && 1 <= |hash| <= 64 ==> p.Valid()
  {
    PreviousPassword(None, Some(hash), 0, owner)
  }

  /** The passwords stored in a history, in order. */
  function Passwords(history: seq<PreviousPassword>): (r: seq<Option<string>>)
    ensures |r| == |history|
    ensures forall i :: 0 <= i < |history| ==> r[i] == history[i].password
  {
    if history == [] then [] else [history[0].password] + Passwords(history[1..])
  }

  /** The unique index on `password_history.password`, as it bears on one
      account's history: no hash occurs twice. */
  predicate NoRepeatedPassword(history: seq<PreviousPassword>) {
    forall i, j :: 0 <= i < j < |history| ==> history[i].password != history[j].password
  }

  /** Appending a hash that is not yet in a history keeps it free of
      repeats, and appending one that is makes a repeat. */
  lemma {:induction false} AppendKeepsNoRepeat(history: seq<PreviousPassword>, p: PreviousPassword)
    requires NoRepeatedPassword(history)
    ensures NoRepeatedPassword(history + [p]) <==> p.password !in Passwords(history)
  {
    var h := history + [p];
    if p.password in Passwords(history) {
      var k :| 0 <= k < |history| && Passwords(history)[k] == p.password;
      assert h[k].password == h[|history|].password;
    }
  }
}
