/** The SDK's client database: three keyed stores, any operation on which may fail. The wrapper called
    atomicOperation only logs and rethrows, so whatever was written before a failure stays. */
module ClientDb {
  import opened Common

  type Account = string

  /** The rows of the user store and of the authenticator store; field names map to their values. */
  type Row = map<string, string>

  /** An authenticator row is keyed by account and credential id. */
  type RowKey = (Account, string)

  datatype Stores = Stores(users: map<Account, Row>, authenticators: map<RowKey, Row>, lastUser: Option<Account>)

  /** How an asynchronous call ends. */
  datatype Outcome = Pass | Throw {
    predicate IsFailure() { Throw? }

    function PropagateFailure(): Outcome { this }
  }

  // ---------- what the operations do to the stores ----------

  function RowsOf(rows: map<RowKey, Row>, account: Account): map<RowKey, Row> {
    map k | k in rows && k.0 == account :: rows[k]
  }

  function RowsOfOthers(rows: map<RowKey, Row>, account: Account): map<RowKey, Row> {
    map k | k in rows && k.0 != account :: rows[k]
  }

  function WithUser(s: Stores, account: Account, row: Row): Stores {
    s.(users := s.users[account := row], lastUser := Some(account))
  }

  /** The rollback of a registration: every row of the account goes, and it is no longer the last user. */
  function RolledBack(s: Stores, account: Account): Stores {
    Stores(s.users - {account}, RowsOfOthers(s.authenticators, account),
           if s.lastUser == Some(account) then None else s.lastUser)
  }

  /** Rows of other accounts are the same; the last user may have become `account` or been cleared. */
  ghost predicate OnlyTouches(s: Stores, t: Stores, account: Account) {
    && t.users - {account} == s.users - {account}
    && RowsOfOthers(t.authenticators, account) == RowsOfOthers(s.authenticators, account)
    && t.lastUser in {s.lastUser, Some(account), None}
  }

  lemma OnlyTouchesChains(s: Stores, t: Stores, u: Stores, account: Account)
    requires OnlyTouches(s, t, account) && OnlyTouches(t, u, account)
    ensures OnlyTouches(s, u, account)
  {}

  function Merge(row: Row, updates: Row): Row {
    row + updates
  }

  /** The new values replace the old ones of the same name; the others stay. */
  lemma MergePrefersUpdates(row: Row, updates: Row, field: string)
    ensures field in Merge(row, updates) <==> field in row || field in updates
    ensures field in Merge(row, updates) ==>
              Merge(row, updates)[field] == if field in updates then updates[field] else row[field]
  {}

  /** The rows the contract's list stands for; a later entry with the same credential id wins. */
  function Synced(account: Account, list: seq<(string, Row)>): map<RowKey, Row> {
    if list == [] then map[]
    else Synced(account, list[..|list| - 1])[(account, list[|list| - 1].0) := list[|list| - 1].1]
  }

  lemma PutKeepsOthers(rows: map<RowKey, Row>, account: Account, credential: string, row: Row)
    ensures RowsOfOthers(rows[(account, credential) := row], account) == RowsOfOthers(rows, account)
  {}

  lemma SyncedGrows(others: map<RowKey, Row>, account: Account, list: seq<(string, Row)>, i: nat)
    requires i < |list|
    ensures (others + Synced(account, list[..i]))[(account, list[i].0) := list[i].1] ==
            others + Synced(account, list[..i + 1])
  {
    assert list[..i + 1][..i] == list[..i];
  }

  /** None of the `count` operations from number `from` on fails. */
  predicate Fine(faults: nat -> bool, from: nat, count: nat) {
    forall k :: from <= k < from + count ==> !faults(k)
  }

  lemma FineSplits(faults: nat -> bool, from: nat, a: nat, b: nat)
    ensures Fine(faults, from, a + b) <==> Fine(faults, from, a) && Fine(faults, from + a, b)
    ensures Fine(faults, from, 1) <==> !faults(from)
  {}

  class Database {
    /** Whether the n-th operation on the stores fails. */
    const faults: nat -> bool
    const isValid: Account -> bool
    var operations: nat
    var users: map<Account, Row>
    var authenticators: map<RowKey, Row>
    var lastUser: Option<Account>

    function Now(): Stores
      reads this
    {
      Stores(users, authenticators, lastUser)
    }

    constructor (faults: nat -> bool, isValid: Account -> bool)
      ensures this.faults == faults && this.isValid == isValid
      ensures Now() == Stores(map[], map[], None) && operations == 0
    {
      this.faults := faults;
      this.isValid := isValid;
      operations, users, authenticators, lastUser := 0, map[], map[], None;
    }

    /** One request to the stores. */
    method Request() returns (r: Outcome)
      modifies this`operations
      ensures operations == old(operations) + 1
      ensures r.Throw? <==> faults(old(operations))
    {
      r := if faults(operations) then Throw else Pass;
      operations := operations + 1;
    }

    method PutUser(account: Account, row: Row) returns (r: Outcome)
      modifies this`operations, this`users
      ensures users == if r.Pass? then old(users)[account := row] else old(users)
      ensures operations == old(operations) + 1 && (r.Throw? <==> faults(old(operations)))
    {
      r := Request();
      if r.Pass? {
        users := users[account := row];
      }
    }

    method DeleteUserRow(account: Account) returns (r: Outcome)
      modifies this`operations, this`users
      ensures users == if r.Pass? then old(users) - {account} else old(users)
    {
      r := Request();
      if r.Pass? {
        users := users - {account};
      }
    }

    method PutAuthenticator(key: RowKey, row: Row) returns (r: Outcome)
      modifies this`operations, this`authenticators
      ensures OnlyTouches(old(Now()), Now(), key.0)
      ensures operations == old(operations) + 1 && (r.Throw? <==> faults(old(operations)))
      ensures authenticators == if r.Pass? then old(authenticators)[key := row] else old(authenticators)
    {
      r := Request();
      if r.Pass? {
        authenticators := authenticators[key := row];
      }
    }

    method DeleteAuthenticator(key: RowKey) returns (r: Outcome)
      modifies this`operations, this`authenticators
      ensures authenticators == if r.Pass? then old(authenticators) - {key} else old(authenticators)
    {
      r := Request();
      if r.Pass? {
        authenticators := authenticators - {key};
      }
    }

    method SetLastUser(account: Option<Account>) returns (r: Outcome)
      modifies this`operations, this`lastUser
      ensures lastUser == if r.Pass? then account else old(lastUser)
      ensures operations == old(operations) + 1 && (r.Throw? <==> faults(old(operations)))
    {
      r := Request();
      if r.Pass? {
        lastUser := account;
      }
    }

    /** null for an account id that is empty or invalid, as for one with no row. */
    method GetUser(account: Account) returns (r: Outcome, user: Option<Row>)
      modifies this`operations
      ensures r.Pass? ==> user == if account != "" && isValid(account) && account in users then Some(users[account])
                                  else None
      ensures account != "" && isValid(account) ==>
                operations == old(operations) + 1 && (r.Throw? <==> faults(old(operations)))
    {
      user := None;
      if account == "" || !isValid(account) { return Pass, None; }
      r := Request();
      if r.Pass? && account in users {
        user := Some(users[account]);
      }
    }

    method StoreUser(account: Account, row: Row) returns (r: Outcome)
      modifies this`operations, this`users, this`lastUser
      ensures r.Pass? ==> isValid(account) && Now() == WithUser(old(Now()), account, row)
      ensures r.Pass? ==> account in users && users[account] == row && lastUser == Some(account)
      ensures r.Throw? ==> lastUser == old(lastUser) && users in {old(users), old(users)[account := row]}
      ensures OnlyTouches(old(Now()), Now(), account)
      ensures users == if isValid(account) && !faults(old(operations)) then old(users)[account := row] else old(users)
      ensures r.Pass? <==> isValid(account) && Fine(faults, old(operations), 2)
      ensures r.Pass? ==> operations == old(operations) + 2
    {
      FineSplits(faults, operations, 1, 1);
      FineSplits(faults, operations + 1, 1, 0);
      if !isValid(account) { return Throw; }
      :- PutUser(account, row);
      :- SetLastUser(Some(account));
      return Pass;
    }

    /** Merges into the row there is; an account without a row is left alone, and nothing is stored. */
    method UpdateUser(account: Account, updates: Row) returns (r: Outcome)
      modifies this`operations, this`users, this`lastUser
      ensures r.Pass? ==> Now() == if account != "" && isValid(account) && account in old(users)
                                   then WithUser(old(Now()), account, Merge(old(users)[account], updates))
                                   else old(Now())
      ensures OnlyTouches(old(Now()), Now(), account)
      ensures account in old(users) ==> account in users
      ensures r.Throw? ==> lastUser == old(lastUser)
      ensures account != "" && isValid(account) && account in old(users) ==>
                && (r.Pass? <==> Fine(faults, old(operations), 3))
                && (r.Pass? ==> operations == old(operations) + 3)
    {
      hide Fine;
      FineSplits(faults, operations, 1, 2);
      var outcome, user := GetUser(account);
      :- outcome;
      if user.Some? {
        :- StoreUser(account, Merge(user.value, updates));
      }
      return Pass;
    }

    /** Registers the account when it has no row yet, then merges the WebAuthn data into its row. */
    method StoreWebAuthnUserData(account: Account, defaults: Row, updates: Row) returns (r: Outcome)
      requires !isValid("")
      modifies this`operations, this`users, this`lastUser
      ensures r.Pass? ==>
                var before := if account in old(users) then old(users)[account] else defaults;
                isValid(account) && Now() == WithUser(old(Now()), account, Merge(before, updates))
      ensures OnlyTouches(old(Now()), Now(), account)
      ensures account in old(users) ==> account in users
      ensures isValid(account) && account in old(users) ==> (r.Pass? <==> Fine(faults, old(operations), 4))
    {
      hide Fine;
      FineSplits(faults, operations, 1, 3);
      if !isValid(account) { return Throw; }
      var outcome, user := GetUser(account);
      :- outcome;
      if user.None? {
        :- StoreUser(account, defaults);
      }
      :- UpdateUser(account, updates);
      return Pass;
    }

    /** The keys of an account's rows, in the order the index lists them. */
    method GetAuthenticatorsByUser(account: Account) returns (r: Outcome, keys: seq<RowKey>)
      modifies this`operations
      ensures r.Pass? ==> forall k :: k in keys <==> k in authenticators && k.0 == account
    {
      keys := [];
      r := Request();
      if r.Throw? { return; }
      var left := set k | k in authenticators && k.0 == account;
      while left != {}
        invariant left <= authenticators.Keys
        invariant forall k :: k in keys || k in left <==> k in authenticators && k.0 == account
        decreases |left|
      {
        var k :| k in left;
        keys := keys + [k];
        left := left - {k};
      }
      return Pass, keys;
    }

    /** Deletes the account's rows one by one; a failing request leaves the rows not reached yet. */
    method DeleteAllAuthenticatorsForUser(account: Account) returns (r: Outcome)
      modifies this`operations, this`authenticators
      ensures r.Pass? ==> authenticators == RowsOfOthers(old(authenticators), account)
      ensures RowsOfOthers(authenticators, account) == RowsOfOthers(old(authenticators), account)
      ensures RowsOf(authenticators, account).Items <= RowsOf(old(authenticators), account).Items
    {
      var outcome, keys := GetAuthenticatorsByUser(account);
      :- outcome;
      if |keys| == 0 {
        assert authenticators == RowsOfOthers(old(authenticators), account);
        return Pass;
      }
      for i := 0 to |keys|
        invariant forall k :: k in authenticators <==> k in old(authenticators) && k !in keys[..i]
        invariant forall k :: k in authenticators ==> authenticators[k] == old(authenticators)[k]
      {
        :- DeleteAuthenticator(keys[i]);
      }
      assert keys[..|keys|] == keys;
      assert authenticators == RowsOfOthers(old(authenticators), account);
      return Pass;
    }

    /** Everything of the account goes when the rollback succeeds; when it fails, other accounts' rows and
        the last user are still as they were. */
    method RollbackUserRegistration(account: Account) returns (r: Outcome)
      modifies this`operations, this`users, this`authenticators, this`lastUser
      ensures r.Pass? ==> Now() == RolledBack(old(Now()), account)
      ensures OnlyTouches(old(Now()), Now(), account)
      ensures r.Throw? ==> lastUser == old(lastUser)
      ensures lastUser in {old(lastUser), None}
    {
      r := DeleteAllAuthenticatorsForUser(account);
      if r.Throw? { return; }
      :- DeleteUserRow(account);
      :- Request();
      if lastUser == Some(account) {
        :- SetLastUser(None);
      }
      return Pass;
    }

    /** The account's rows are replaced by exactly the contract's list. */
    method SyncAuthenticatorsFromContract(account: Account, list: seq<(string, Row)>) returns (r: Outcome)
      modifies this`operations, this`authenticators
      ensures r.Pass? ==> authenticators == RowsOfOthers(old(authenticators), account) + Synced(account, list)
      ensures RowsOfOthers(authenticators, account) == RowsOfOthers(old(authenticators), account)
    {
      r := DeleteAllAuthenticatorsForUser(account);
      if r.Throw? { return; }
      ghost var others := authenticators;
      for i := 0 to |list|
        invariant authenticators == others + Synced(account, list[..i])
        invariant RowsOfOthers(authenticators, account) == RowsOfOthers(old(authenticators), account)
      {
        hide RowsOfOthers, Synced;
        PutKeepsOthers(authenticators, account, list[i].0, list[i].1);
        SyncedGrows(others, account, list, i);
        :- PutAuthenticator((account, list[i].0), list[i].1);
      }
      assert list[..|list|] == list;
      return Pass;
    }
  }

  // ---------- laws ----------

  lemma RollbackIsThorough(s: Stores, account: Account)
    ensures var t := RolledBack(s, account);
            && account !in t.users && RowsOf(t.authenticators, account) == map[] && t.lastUser != Some(account)
            && OnlyTouches(s, t, account) && RolledBack(t, account) == t
            && (s.lastUser != Some(account) ==> t.lastUser == s.lastUser)
  {
    assert RowsOfOthers(RolledBack(s, account).authenticators, account) == RowsOfOthers(s.authenticators, account);
  }

  /** Registering an account and rolling it back gives the stores back exactly when the account had no rows
      and no other account was the last user: the previous last user is not restored. */
  lemma RollbackRestoresExactlyWhenNobodyWasLast(s: Stores, account: Account, row: Row, key: string, passkey: Row)
    ensures var stored := WithUser(s, account, row).(authenticators := s.authenticators[(account, key) := passkey]);
            RolledBack(stored, account) == s
            <==> account !in s.users && RowsOf(s.authenticators, account) == map[] && s.lastUser.None?
  {
    var stored := WithUser(s, account, row).(authenticators := s.authenticators[(account, key) := passkey]);
    var back := RolledBack(stored, account);
    assert RowsOfOthers(stored.authenticators, account) == RowsOfOthers(s.authenticators, account);
    if account !in s.users && RowsOf(s.authenticators, account) == map[] {
      assert s.users - {account} == s.users;
      assert forall k :: k in s.authenticators && k.0 == account ==> k in RowsOf(s.authenticators, account);
      assert RowsOfOthers(s.authenticators, account) == s.authenticators;
      assert back.users == s.users;
    }
    if back == s {
      assert account !in back.users;
      assert forall k :: k in back.authenticators ==> k.0 != account;
    }
  }

  function Ids(list: seq<(string, Row)>): (ids: seq<string>)
    ensures |ids| == |list|
  {
    seq(|list|, i requires 0 <= i < |list| => list[i].0)
  }

  /** After a sync the account has a row for each listed credential and no other. */
  lemma {:induction false} SyncedKeys(account: Account, list: seq<(string, Row)>, k: RowKey)
    ensures k in Synced(account, list) <==> k.0 == account && k.1 in Ids(list)
  {
    if list != [] {
      var front := list[..|list| - 1];
      SyncedKeys(account, front, k);
      assert Ids(list) == Ids(front) + [list[|list| - 1].0];
    }
  }

  /** With distinct credential ids each row is the listed one. */
  lemma {:induction false} SyncedIsTheList(account: Account, list: seq<(string, Row)>, i: nat)
    requires Distinct(Ids(list)) && i < |list|
    ensures (account, list[i].0) in Synced(account, list) && Synced(account, list)[(account, list[i].0)] == list[i].1
  {
    hide Ids;
    var front := list[..|list| - 1];
    FrontIds(list);
    if i < |front| {
      SyncedIsTheList(account, front, i);
      assert Ids(list)[i] != Ids(list)[|list| - 1];
    }
  }

  lemma FrontIds(list: seq<(string, Row)>)
    requires list != []
    ensures Ids(list) == Ids(list[..|list| - 1]) + [list[|list| - 1].0]
    ensures forall i :: 0 <= i < |list| ==> Ids(list)[i] == list[i].0
    ensures Distinct(Ids(list)) ==> Distinct(Ids(list[..|list| - 1]))
  {
    assert Ids(list)[..|list| - 1] == Ids(list[..|list| - 1]);
  }
}
