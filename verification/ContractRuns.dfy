/** What holds over every run of contract calls. */
module ContractRuns {
  import opened Common
  import opened Verifiers
  import opened Verification
  import opened ContractState
  import Decimal

  datatype Event = Event(env: Env, call: Call)

  /** The state after a history of calls on a freshly initialised contract. */
  function Run(lib: Libraries, h: seq<Event>): State {
    if h == [] then INITIAL
    else
      var last := h[|h| - 1];
      Step(lib, Run(lib, h[..|h| - 1]), last.env, last.call)
  }

  // ---------- what a call does, from its arguments alone ----------

  /** The authenticator that a call stores afresh for the account and the credential, if it does: the account's
      own public store, or its own verified registration. */
  function Given(lib: Libraries, s: State, e: Event, user: Account, credential: CredentialId)
    : Option<StoredAuthenticator>
  {
    if e.env.predecessor != user then None
    else
      match e.call
      case StoreAuthenticator(owner, id, publicKey, transports, registered, vrfKey) =>
        if owner == user && id == credential
        then Some(StoredAuthenticator(publicKey, transports, registered, [vrfKey]))
        else None
      case VerifyAndRegister(v, r) =>
        (match RegistrationCheck(lib, e.env.height, s.settings.maxBlockAge, v, r)
         case Return(Some(info)) =>
           var transports := if r.transports.Some? then Some(Transports(r.transports.value)) else None;
           if Encode64(info.credentialId) == credential
           then Some(StoredAuthenticator(info.publicKey, transports, Decimal.ToString(e.env.timestampMs),
                                         [v.publicKey]))
           else None
         case _ => None)
      case _ => None
  }

  /** The account's own call adds a key to its stored credential that is not in the window. */
  predicate Adds(s: State, e: Event, user: Account, credential: CredentialId) {
    && e.env.predecessor == user && e.call.AddVrfKey? && e.call.credential == credential
    && Lookup(s, user, credential).Some?
    && e.call.key !in Lookup(s, user, credential).value.vrfKeys
  }

  lemma AppliedPut(s: State, user: Account, credential: CredentialId, a: StoredAuthenticator,
                   other: Account, id: CredentialId)
    ensures Lookup(PutAuthenticator(s, user, credential, a), other, id) ==
            if other == user && id == credential then Some(a) else Lookup(s, other, id)
  {}

  /** What any call leaves stored for an account and a credential. */
  lemma EntryAfterStep(lib: Libraries, s: State, e: Event, user: Account, credential: CredentialId)
    ensures Lookup(Step(lib, s, e.env, e.call), user, credential) ==
            var was, given := Lookup(s, user, credential), Given(lib, s, e, user, credential);
            if given.Some? then given
            else if Adds(s, e, user, credential) then
              var grown := was.value.vrfKeys + [e.call.key];
              Some(was.value.(vrfKeys := if |grown| > s.settings.maxKeys then grown[1..] else grown))
            else was
  {
    hide RegistrationCheck, Encode64, Decimal.ToString, Transports, PutAuthenticator, AddMapping;
    var d := Decide(lib, s, e.env, e.call);
    if d.Return? {
      match d.value
      case Store(owner, id, a, register) =>
        AppliedPut(s, owner, id, a, user, credential);
        SameEntries(Step(lib, s, e.env, e.call), PutAuthenticator(s, owner, id, a), user, credential);
      case Push(owner, id, key) =>
        var was := Lookup(s, owner, id);
        AppliedPut(s, owner, id, was.value.(vrfKeys := Slide(was.value.vrfKeys, key, s.settings.maxKeys)),
                   user, credential);
      case _ =>
        SameEntries(Step(lib, s, e.env, e.call), s, user, credential);
    }
  }

  lemma SameEntries(s: State, t: State, user: Account, credential: CredentialId)
    requires s.authenticators == t.authenticators
    ensures Lookup(s, user, credential) == Lookup(t, user, credential)
  {}

  /** Adding a key, seen from outside: when the caller has the credential and the key is new to its window, the
      key goes last and, past the limit, the oldest goes; whatever else is stored stays. Otherwise nothing at all
      changes. */
  lemma AddedKeyGoesLast(lib: Libraries, s: State, env: Env, credential: CredentialId, key: Key)
    ensures var user, t := env.predecessor, Step(lib, s, env, AddVrfKey(credential, key));
            if Lookup(s, user, credential).Some? && key !in Keys(s, user, credential) then
              && Lookup(t, user, credential).Some?
              && Lookup(t, user, credential).value ==
                 Lookup(s, user, credential).value.(vrfKeys := Keys(t, user, credential))
              && Keys(t, user, credential) ==
                 (if |Keys(s, user, credential)| < s.settings.maxKeys then Keys(s, user, credential) + [key]
                  else (Keys(s, user, credential) + [key])[1..])
              && (forall u, c :: u != user || c != credential ==> Lookup(t, u, c) == Lookup(s, u, c))
              && t == s.(authenticators := t.authenticators)
            else t == s
  {
    var e := Event(env, AddVrfKey(credential, key));
    EntryAfterStep(lib, s, e, env.predecessor, credential);
    forall u, c | u != env.predecessor || c != credential
      ensures Lookup(Step(lib, s, env, AddVrfKey(credential, key)), u, c) == Lookup(s, u, c)
    {
      EntryAfterStep(lib, s, e, u, c);
    }
  }

  /** Who is listed under a credential after any call. */
  lemma ListedAfterStep(lib: Libraries, s: State, e: Event, credential: CredentialId)
    ensures Listed(Step(lib, s, e.env, e.call).index, credential) ==
            var was, user := Listed(s.index, credential), e.env.predecessor;
            if Given(lib, s, e, user, credential).Some? && user !in was then was + [user] else was
  {
    hide RegistrationCheck, Encode64, Decimal.ToString, Transports;
  }

  /** The registered accounts after any call: the named one when the account itself, the contract or an admin
      registers it, and the caller of a verified registration. */
  lemma UsersAfterStep(lib: Libraries, s: State, e: Event)
    ensures Step(lib, s, e.env, e.call).users ==
            var caller := e.env.predecessor;
            if e.call.RegisterUser? && (caller == e.call.user || caller == e.env.current || caller in s.admins) then
              s.users + {e.call.user}
            else if e.call.VerifyAndRegister? then
              var answer := RegistrationCheck(lib, e.env.height, s.settings.maxBlockAge, e.call.vrf,
                                              e.call.registration);
              if answer.Return? && answer.value.Some? then s.users + {caller} else s.users
            else s.users
  {
    hide RegistrationCheck, Encode64, Decimal.ToString, Transports, AddMapping;
  }

  /** Only the contract's own account changes the settings and the admins. */
  lemma OnlyTheContractConfigures(lib: Libraries, s: State, e: Event)
    ensures var t, own := Step(lib, s, e.env, e.call), e.env.predecessor == e.env.current;
            && t.settings == (if e.call.UpdateVrfSettings? && own then e.call.settings else s.settings)
            && t.admins == if e.call.AddAdmin? && own then s.admins + {e.call.admin}
                           else if e.call.RemoveAdmin? && own then s.admins - {e.call.admin}
                           else s.admins
  {
    hide RegistrationCheck, Encode64, Decimal.ToString, Transports, AddMapping;
  }

  /** The authenticator that the event at `i` stored afresh. */
  function GivenAt(lib: Libraries, h: seq<Event>, i: nat, user: Account, credential: CredentialId)
    : Option<StoredAuthenticator>
    requires i < |h|
  {
    Given(lib, Run(lib, h[..i]), h[i], user, credential)
  }

  /** The event at `i` added its key. */
  predicate AddsAt(lib: Libraries, h: seq<Event>, i: nat, user: Account, credential: CredentialId)
    requires i < |h|
  {
    Adds(Run(lib, h[..i]), h[i], user, credential)
  }

  /** The keys accepted for a credential since it was last stored, oldest first: the one it was stored with,
      then every key that the account's own calls added. */
  function Accepted(lib: Libraries, h: seq<Event>, user: Account, credential: CredentialId): seq<Key> {
    if h == [] then []
    else
      var n := |h| - 1;
      var given := GivenAt(lib, h, n, user, credential);
      if given.Some? then given.value.vrfKeys
      else if AddsAt(lib, h, n, user, credential)
      then Accepted(lib, h[..n], user, credential) + [h[n].call.key]
      else Accepted(lib, h[..n], user, credential)
  }

  lemma OneKeyIsGiven(lib: Libraries, s: State, e: Event, user: Account, credential: CredentialId)
    ensures Given(lib, s, e, user, credential).Some? ==> |Given(lib, s, e, user, credential).value.vrfKeys| == 1
  {
    hide RegistrationCheck, Encode64, Decimal.ToString, Transports;
  }

  // ---------- the key window ----------

  function Max(a: nat, b: nat): nat { if a < b then b else a }

  /** The largest limit that has been in force, never less than 1. */
  function LargestLimit(lib: Libraries, h: seq<Event>): nat {
    var now := Max(1, Run(lib, h).settings.maxKeys);
    if h == [] then now else Max(now, LargestLimit(lib, h[..|h| - 1]))
  }

  predicate IsLatest(keys: seq<Key>, accepted: seq<Key>) {
    |keys| <= |accepted| && keys == accepted[|accepted| - |keys|..]
  }

  /** A non-empty, duplicate-free run of the latest accepted keys, at most `limit` of them; no keys at all
      when none was accepted. */
  predicate IsWindow(keys: seq<Key>, accepted: seq<Key>, limit: nat) {
    && (accepted == [] <==> keys == [])
    && IsLatest(keys, accepted) && Distinct(keys) && |keys| <= limit
  }

  lemma WindowOfStored(keys: seq<Key>, limit: nat)
    requires |keys| == 1 && limit >= 1
    ensures IsWindow(keys, keys, limit)
  {}

  lemma WindowSlides(keys: seq<Key>, accepted: seq<Key>, key: Key, maxKeys: nat, limit: nat, wider: nat)
    requires IsWindow(keys, accepted, limit) && keys != [] && key !in keys
    requires maxKeys <= limit <= wider
    ensures IsWindow(Slide(keys, key, maxKeys), accepted + [key], wider)
  {}

  lemma WindowWidens(keys: seq<Key>, accepted: seq<Key>, limit: nat, wider: nat)
    requires IsWindow(keys, accepted, limit) && limit <= wider
    ensures IsWindow(keys, accepted, wider)
  {}

  lemma LimitsGrow(lib: Libraries, h: seq<Event>)
    ensures Run(lib, h).settings.maxKeys <= LargestLimit(lib, h) && LargestLimit(lib, h) >= 1
    ensures h != [] ==> LargestLimit(lib, h[..|h| - 1]) <= LargestLimit(lib, h)
  {
    hide Run;
  }

  /** In every reachable state a credential is stored exactly when a key was accepted for it, and its keys are
      a window of the accepted ones, no longer than the largest limit so far in force. */
  lemma {:induction false} WindowIsLatestKeys(lib: Libraries, h: seq<Event>, user: Account, credential: CredentialId)
    ensures Lookup(Run(lib, h), user, credential).Some? <==> Accepted(lib, h, user, credential) != []
    ensures IsWindow(Keys(Run(lib, h), user, credential), Accepted(lib, h, user, credential), LargestLimit(lib, h))
  {
    hide Step, Given, IsWindow, LargestLimit;
    LimitsGrow(lib, h);
    if h == [] {
      NoWindow(LargestLimit(lib, h));
    } else {
      var prev, last, limit := h[..|h| - 1], h[|h| - 1], LargestLimit(lib, h);
      WindowIsLatestKeys(lib, prev, user, credential);
      LimitsGrow(lib, prev);
      var s, accepted := Run(lib, prev), Accepted(lib, prev, user, credential);
      EntryAfterStep(lib, s, last, user, credential);
      OneKeyIsGiven(lib, s, last, user, credential);
      var given := Given(lib, s, last, user, credential);
      if given.Some? {
        WindowOfStored(given.value.vrfKeys, limit);
      } else if Adds(s, last, user, credential) {
        var a := Lookup(s, user, credential).value;
        SomeKeys(a.vrfKeys, accepted, LargestLimit(lib, prev));
        WindowSlides(a.vrfKeys, accepted, last.call.key, s.settings.maxKeys, LargestLimit(lib, prev), limit);
      } else {
        WindowWidens(Keys(s, user, credential), accepted, LargestLimit(lib, prev), limit);
      }
    }
  }

  lemma NoWindow(limit: nat)
    ensures IsWindow([], [], limit)
  {}

  lemma SomeKeys(keys: seq<Key>, accepted: seq<Key>, limit: nat)
    requires IsWindow(keys, accepted, limit)
    ensures accepted != [] ==> keys != []
  {}

  /** The limit has been `limit` at every call since the credential was last stored. */
  predicate LimitSinceStore(lib: Libraries, h: seq<Event>, user: Account, credential: CredentialId, limit: nat) {
    h == []
    || GivenAt(lib, h, |h| - 1, user, credential).Some?
    || (Run(lib, h[..|h| - 1]).settings.maxKeys == limit && LimitSinceStore(lib, h[..|h| - 1], user, credential, limit))
  }

  lemma SlideUnderConstantLimit(accepted: seq<Key>, key: Key, limit: nat)
    requires accepted != []
    ensures Slide(Last(accepted, Max(limit, 1)), key, limit) == Last(accepted + [key], Max(limit, 1))
  {}

  /** Under a constant limit the window is exactly the last max(limit, 1) accepted keys. */
  lemma {:induction false} WindowUnderConstantLimit(
    lib: Libraries, h: seq<Event>, user: Account, credential: CredentialId, limit: nat)
    requires LimitSinceStore(lib, h, user, credential, limit)
    ensures Keys(Run(lib, h), user, credential) == Last(Accepted(lib, h, user, credential), Max(limit, 1))
  {
    hide Step, Given, Last;
    if h != [] {
      var prev, last := h[..|h| - 1], h[|h| - 1];
      var s := Run(lib, prev);
      EntryAfterStep(lib, s, last, user, credential);
      OneKeyIsGiven(lib, s, last, user, credential);
      var given := Given(lib, s, last, user, credential);
      if given.Some? {
        LastOfFew(given.value.vrfKeys, Max(limit, 1));
      } else {
        WindowUnderConstantLimit(lib, prev, user, credential, limit);
        if Adds(s, last, user, credential) {
          WindowIsLatestKeys(lib, prev, user, credential);
          SlideUnderConstantLimit(Accepted(lib, prev, user, credential), last.call.key, limit);
        }
      }
    } else {
      LastOfFew([], Max(limit, 1));
    }
  }

  lemma LastOfFew(keys: seq<Key>, n: nat)
    requires |keys| <= n
    ensures Last(keys, n) == keys
  {}

  // ---------- the reverse index ----------

  ghost predicate IndexAgrees(s: State) {
    && (forall u, c :: Lookup(s, u, c).Some? <==> u in Listed(s.index, c))
    && (forall c :: c in s.index ==> s.index[c] != [] && Distinct(s.index[c]))
  }

  lemma StoreKeepsIndex(s: State, user: Account, credential: CredentialId, a: StoredAuthenticator)
    requires IndexAgrees(s)
    ensures IndexAgrees(PutAuthenticator(s, user, credential, a).(index := AddMapping(s.index, credential, user)))
  {
    var t := PutAuthenticator(s, user, credential, a).(index := AddMapping(s.index, credential, user));
    forall u, c ensures Lookup(t, u, c).Some? <==> u in Listed(t.index, c) {
      assert Lookup(s, u, c).Some? <==> u in Listed(s.index, c);
      if u == user && c == credential {
        AppliedPut(s, user, credential, a, u, c);
      }
    }
  }

  lemma RewriteKeepsIndex(s: State, user: Account, credential: CredentialId, a: StoredAuthenticator)
    requires IndexAgrees(s) && Lookup(s, user, credential).Some?
    ensures IndexAgrees(PutAuthenticator(s, user, credential, a))
  {
    var t := PutAuthenticator(s, user, credential, a);
    forall u, c ensures Lookup(t, u, c).Some? <==> u in Listed(t.index, c) {
      assert Lookup(s, u, c).Some? <==> u in Listed(s.index, c);
    }
  }

  lemma SameLookupsKeepIndex(s: State, t: State)
    requires IndexAgrees(s) && t.authenticators == s.authenticators && t.index == s.index
    ensures IndexAgrees(t)
  {
    forall u, c ensures Lookup(t, u, c).Some? <==> u in Listed(t.index, c) {
      assert Lookup(s, u, c).Some? <==> u in Listed(s.index, c);
    }
  }

  /** One call keeps the two maps in agreement, and every list non-empty and free of repetitions. */
  lemma StepKeepsIndex(lib: Libraries, s: State, e: Event)
    requires IndexAgrees(s)
    ensures IndexAgrees(Step(lib, s, e.env, e.call))
  {
    hide PutAuthenticator, AddMapping, Slide, Decide, IndexAgrees;
    var d := Decide(lib, s, e.env, e.call);
    if d.Return? {
      match d.value
      case Store(user, credential, a, register) =>
        StoreKeepsIndex(s, user, credential, a);
        var t := PutAuthenticator(s, user, credential, a).(index := AddMapping(s.index, credential, user));
        SameLookupsKeepIndex(t, t.(users := s.users + {user}));
      case Push(user, credential, key) =>
        if Lookup(s, user, credential).Some? {
          var a := Lookup(s, user, credential).value;
          RewriteKeepsIndex(s, user, credential, a.(vrfKeys := Slide(a.vrfKeys, key, s.settings.maxKeys)));
        }
      case _ =>
        SameLookupsKeepIndex(s, Apply(s, d.value));
    }
  }

  /** In every reachable state an account is listed under a credential exactly when it has an authenticator
      stored under it, and no list is empty or repeats an account. */
  lemma {:induction false} IndexAlwaysAgrees(lib: Libraries, h: seq<Event>)
    ensures IndexAgrees(Run(lib, h))
  {
    hide Step;
    if h != [] {
      var prev := h[..|h| - 1];
      IndexAlwaysAgrees(lib, prev);
      StepKeepsIndex(lib, Run(lib, prev), h[|h| - 1]);
    }
  }

  lemma {:induction false} WithoutAppended(users: seq<Account>, user: Account)
    ensures Without(users + [user], user) == Without(users, user)
    ensures user !in users ==> Without(users, user) == users
    ensures user !in Without(users, user)
  {
    if users == [] {
      assert ([] + [user])[1..] == [];
    } else {
      assert (users + [user])[1..] == users[1..] + [user];
      WithoutAppended(users[1..], user);
    }
  }

  /** Removing a mapping just added gives the index back exactly when the account was not listed before. */
  lemma RemoveUndoesAddExactlyForNewUsers(index: map<CredentialId, seq<Account>>, credential: CredentialId,
                                          user: Account)
    requires credential in index ==> index[credential] != []
    ensures RemoveMapping(AddMapping(index, credential, user), credential, user) == index
       <==> user !in Listed(index, credential)
  {
    var users := Listed(index, credential);
    WithoutAppended(users, user);
    var added := AddMapping(index, credential, user);
    var back := RemoveMapping(added, credential, user);
    if user in users {
      assert user !in Listed(back, credential);
    } else if credential in index {
      assert back[credential] == users;
      assert back == index;
    } else {
      assert back == index;
    }
  }

  // ---------- authentication ----------

  /** Event `j` is the user's own last storing of the credential, with the public key now on record, and
      event `i`, not before it, is the user's own call that put `key` in the window. */
  ghost predicate Provenance(lib: Libraries, h: seq<Event>, user: Account, credential: CredentialId, key: Key,
                             j: nat, i: nat)
  {
    && j <= i < |h|
    && h[j].env.predecessor == user && h[i].env.predecessor == user
    && var given := GivenAt(lib, h, j, user, credential);
    && given.Some?
    && (forall m: nat :: j < m < |h| ==> GivenAt(lib, h, m, user, credential).None?)
    && Lookup(Run(lib, h), user, credential).Some?
    && Lookup(Run(lib, h), user, credential).value.publicKey == given.value.publicKey
    && ((i == j && given.value.vrfKeys == [key])
        || (i > j && AddsAt(lib, h, i, user, credential) && h[i].call.key == key))
  }

  lemma SameEarlier(lib: Libraries, h: seq<Event>, i: nat, user: Account, credential: CredentialId)
    requires i < |h| - 1
    ensures GivenAt(lib, h, i, user, credential) == GivenAt(lib, h[..|h| - 1], i, user, credential)
    ensures AddsAt(lib, h, i, user, credential) == AddsAt(lib, h[..|h| - 1], i, user, credential)
  {
    assert h[..|h| - 1][..i] == h[..i];
  }

  /** Nobody but the account itself ever stores its credential or adds a key to it. */
  lemma {:induction false} AcceptedKeysComeFromTheUser(
    lib: Libraries, h: seq<Event>, user: Account, credential: CredentialId, key: Key) returns (j: nat, i: nat)
    requires key in Accepted(lib, h, user, credential)
    ensures Provenance(lib, h, user, credential, key, j, i)
  {
    hide Step, Given;
    var n := |h| - 1;
    var prev, last := h[..n], h[n];
    var s := Run(lib, prev);
    var given := Given(lib, s, last, user, credential);
    if given.Some? {
      EntryAfterStep(lib, s, last, user, credential);
      OneKeyIsGiven(lib, s, last, user, credential);
      OnlyTheUserStores(lib, s, last, user, credential);
      j, i := n, n;
    } else if Adds(s, last, user, credential) && key == last.call.key {
      WindowIsLatestKeys(lib, prev, user, credential);
      j, i := AcceptedKeysComeFromTheUser(lib, prev, user, credential, Accepted(lib, prev, user, credential)[0]);
      i := n;
      StillStored(lib, h, user, credential);
      SameEarlier(lib, h, j, user, credential);
    } else {
      j, i := AcceptedKeysComeFromTheUser(lib, prev, user, credential, key);
      StillStored(lib, h, user, credential);
      SameEarlier(lib, h, i, user, credential);
      SameEarlier(lib, h, j, user, credential);
    }
  }

  lemma OnlyTheUserStores(lib: Libraries, s: State, e: Event, user: Account, credential: CredentialId)
    ensures Given(lib, s, e, user, credential).Some? ==> e.env.predecessor == user
  {}

  /** A later call that does not store the credential again leaves its public key on record. */
  lemma StillStored(lib: Libraries, h: seq<Event>, user: Account, credential: CredentialId)
    requires h != [] && GivenAt(lib, h, |h| - 1, user, credential).None?
    requires Lookup(Run(lib, h[..|h| - 1]), user, credential).Some?
    ensures forall m: nat :: m < |h| - 1 ==>
                               GivenAt(lib, h, m, user, credential) ==
                               GivenAt(lib, h[..|h| - 1], m, user, credential)
    ensures Lookup(Run(lib, h), user, credential).Some?
    ensures Lookup(Run(lib, h), user, credential).value.publicKey ==
            Lookup(Run(lib, h[..|h| - 1]), user, credential).value.publicKey
  {
    hide Step, Given;
    forall m: nat | m < |h| - 1
      ensures GivenAt(lib, h, m, user, credential) == GivenAt(lib, h[..|h| - 1], m, user, credential)
    {
      SameEarlier(lib, h, m, user, credential);
    }
    EntryAfterStep(lib, Run(lib, h[..|h| - 1]), h[|h| - 1], user, credential);
  }

  /** The answer of verify_authentication_response in the state after `h`. */
  function Answer(lib: Libraries, h: seq<Event>, height: U64, v: VrfData, credential: AuthenticationCredential)
    : Outcome<Option<AuthenticationInfo>>
  {
    AuthenticationAnswer(lib, Run(lib, h), height, v, credential)
  }

  /** Over every run: an authentication verified for an account, a credential and a VRF key means that the
      account itself stored that credential and offered that key, which is still in the window, and that the
      assertion answers the challenge of the verified VRF output, shows the user present and verified, and is
      signed with the public key the account stored. The height the caller claims is within the window; it
      is not compared with what the VRF was computed on, see AcceptedAgainUnderALaterClaim. */
  lemma AuthenticationSafety(lib: Libraries, h: seq<Event>, height: U64, v: VrfData,
                             credential: AuthenticationCredential) returns (j: nat, i: nat)
    requires Answer(lib, h, height, v, credential).Return? && Answer(lib, h, height, v, credential).value.Some?
    ensures Provenance(lib, h, v.userId, credential.id, v.publicKey, j, i)
    ensures v.publicKey in Keys(Run(lib, h), v.userId, credential.id)
    ensures Authenticated(lib, height, Run(lib, h).settings.maxBlockAge, v, credential,
                          Lookup(Run(lib, h), v.userId, credential.id).value,
                          Answer(lib, h, height, v, credential).value.value)
  {
    hide VerifyAuthentication, Authenticated, Accepted, Provenance;
    var s := Run(lib, h);
    var stored := Lookup(s, v.userId, credential.id);
    VerifiedImpliesAuthenticated(lib, height, s.settings.maxBlockAge, v, credential, stored);
    AuthenticatedKeyIsStored(lib, height, s.settings.maxBlockAge, v, credential, stored.value,
                             Answer(lib, h, height, v, credential).value.value);
    WindowIsLatestKeys(lib, h, v.userId, credential.id);
    j, i := AcceptedKeysComeFromTheUser(lib, h, v.userId, credential.id, v.publicKey);
  }

  lemma AuthenticatedKeyIsStored(lib: Libraries, height: U64, maxAge: U64, v: VrfData,
                                 credential: AuthenticationCredential, stored: StoredAuthenticator,
                                 info: AuthenticationInfo)
    requires Authenticated(lib, height, maxAge, v, credential, stored, info)
    ensures v.publicKey in stored.vrfKeys
  {
    hide Assertion;
  }

  /** The same assertion is accepted again, with the same answer, at any later point of the run and any
      height, once the claimed height is brought up to date, as long as the credential has its public key and
      the VRF key is still in its window. */
  lemma AcceptedAgainUnderALaterClaim(lib: Libraries, h: seq<Event>, more: seq<Event>, height: U64, later: U64,
                                      v: VrfData, credential: AuthenticationCredential)
    requires Answer(lib, h, height, v, credential).Return? && Answer(lib, h, height, v, credential).value.Some?
    requires Lookup(Run(lib, h + more), v.userId, credential.id).Some?
    requires Lookup(Run(lib, h + more), v.userId, credential.id).value.publicKey ==
             Lookup(Run(lib, h), v.userId, credential.id).value.publicKey
    requires v.publicKey in Keys(Run(lib, h + more), v.userId, credential.id)
    ensures Answer(lib, h + more, later, v.(blockHeight := later), credential) ==
            if later + Run(lib, h + more).settings.maxBlockAge < 0x1_0000_0000_0000_0000
            then Answer(lib, h, height, v, credential)
            else Panic
  {
    hide VerifyAuthentication, Authenticated, Run;
    var s, t := Run(lib, h), Run(lib, h + more);
    var was, now := Lookup(s, v.userId, credential.id), Lookup(t, v.userId, credential.id);
    VerifiedImpliesAuthenticated(lib, height, s.settings.maxBlockAge, v, credential, was);
    AuthenticatedKeyIsStored(lib, height, s.settings.maxBlockAge, v, credential, was.value,
                             Answer(lib, h, height, v, credential).value.value);
    OnlyKeyAndWindowMatter(lib, height, s.settings.maxBlockAge, v, credential, was.value, now.value);
    AuthenticationIgnoresClaimedRpIdAndHeight(lib, height, s.settings.maxBlockAge, v, v.rpId, later,
                                              t.settings.maxBlockAge, credential, now);
    assert v.(rpId := v.rpId, blockHeight := later) == v.(blockHeight := later);
  }

  lemma OnlyKeyAndWindowMatter(lib: Libraries, height: U64, maxAge: U64, v: VrfData,
                               credential: AuthenticationCredential, was: StoredAuthenticator, now: StoredAuthenticator)
    requires was.publicKey == now.publicKey && (v.publicKey in was.vrfKeys <==> v.publicKey in now.vrfKeys)
    ensures VerifyAuthentication(lib, height, maxAge, v, credential, Some(was)) ==
            VerifyAuthentication(lib, height, maxAge, v, credential, Some(now))
  {
    hide ExtractChallenge, VerifyAssertion, ParseClientData, Decode64, RpIdOf;
  }

  /** The keys that the calls of `more`, made after `h`, add to the credential's window, oldest first. */
  function Offered(lib: Libraries, h: seq<Event>, more: seq<Event>, user: Account, credential: CredentialId): seq<Key> {
    if more == [] then []
    else
      var n := |more| - 1;
      var before := Offered(lib, h, more[..n], user, credential);
      if Adds(Run(lib, h + more[..n]), more[n], user, credential) then before + [more[n].call.key] else before
  }

  ghost predicate NotStoredAgain(lib: Libraries, h: seq<Event>, more: seq<Event>, user: Account,
                                 credential: CredentialId)
  {
    forall i: nat :: |h| <= i < |h| + |more| ==> GivenAt(lib, h + more, i, user, credential).None?
  }

  lemma {:induction false} AcceptedExtends(lib: Libraries, h: seq<Event>, more: seq<Event>, user: Account,
                                           credential: CredentialId)
    requires NotStoredAgain(lib, h, more, user, credential)
    ensures Accepted(lib, h + more, user, credential) ==
            Accepted(lib, h, user, credential) + Offered(lib, h, more, user, credential)
    decreases |more|
  {
    hide Given, Run, Adds;
    if more == [] {
      assert h + more == h;
    } else {
      var front, n := more[..|more| - 1], |h| + |more| - 1;
      assert (h + more)[..n] == h + front;
      forall i: nat | |h| <= i < n ensures GivenAt(lib, h + front, i, user, credential).None? {
        SameEarlier(lib, h + more, i, user, credential);
      }
      AcceptedExtends(lib, h, front, user, credential);
    }
  }

  lemma OutsideTheWindowIsRefused(lib: Libraries, h: seq<Event>, height: U64, v: VrfData,
                                  credential: AuthenticationCredential)
    requires v.publicKey !in Keys(Run(lib, h), v.userId, credential.id)
    ensures Answer(lib, h, height, v, credential) in {Panic, Return(None)}
  {
    hide ExtractChallenge, Run;
  }

  /** Under a constant limit M, once max(M, 1) further keys have been accepted, without the credential being
      stored again, a key that was not offered again has left the window and no longer authenticates. */
  lemma EvictedKeysAreRefused(lib: Libraries, h: seq<Event>, more: seq<Event>, limit: nat, height: U64, v: VrfData,
                              credential: AuthenticationCredential)
    requires LimitSinceStore(lib, h + more, v.userId, credential.id, limit)
    requires NotStoredAgain(lib, h, more, v.userId, credential.id)
    requires |Offered(lib, h, more, v.userId, credential.id)| >= Max(limit, 1)
    requires v.publicKey !in Offered(lib, h, more, v.userId, credential.id)
    ensures v.publicKey !in Keys(Run(lib, h + more), v.userId, credential.id)
    ensures Answer(lib, h + more, height, v, credential) in {Panic, Return(None)}
  {
    hide LimitSinceStore, NotStoredAgain, Offered, Accepted, Run, VerifyAuthentication;
    AcceptedExtends(lib, h, more, v.userId, credential.id);
    WindowUnderConstantLimit(lib, h + more, v.userId, credential.id, limit);
    OutsideTheWindowIsRefused(lib, h + more, height, v, credential);
  }

}
