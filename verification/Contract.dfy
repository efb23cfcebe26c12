/** The contract object: its methods update the stored maps in place, and each is proved to make exactly
    the state change its specification names. */
module Contract {
  import opened Common
  import opened Verifiers
  import opened Verification
  import opened ContractState
  import Decimal

  datatype CanRegister = CanRegister(verified: bool, userExists: bool)

  /** verify_and_register_user's answer: the registered credential, or none. */
  type Registration = Option<RegistrationInfo>

  class WebAuthnContract {
    var settings: VrfSettings
    var admins: set<Account>
    var authenticators: map<Account, map<CredentialId, StoredAuthenticator>>
    var users: set<Account>
    var index: map<CredentialId, seq<Account>>

    function Now(): State
      reads this
    {
      State(settings, admins, authenticators, users, index)
    }

    constructor ()
      ensures Now() == INITIAL
      ensures settings == VrfSettings(300_000, 100, true, 5) && admins == {} && users == {}
      ensures authenticators == map[] && index == map[]
    {
      settings := DEFAULT_SETTINGS;
      admins := {};
      authenticators := map[];
      users := {};
      index := map[];
    }

    method AddCredentialUserMapping(credential: CredentialId, user: Account)
      modifies this`index
      ensures index == AddMapping(old(index), credential, user)
    {
      var listed := if credential in index then index[credential] else [];
      if user !in listed {
        listed := listed + [user];
        index := index[credential := listed];
      }
    }

    method RemoveCredentialUserMapping(credential: CredentialId, user: Account)
      modifies this`index
      ensures index == RemoveMapping(old(index), credential, user)
    {
      if credential in index {
        var listed := Without(index[credential], user);
        if listed == [] {
          index := index - {credential};
        } else {
          index := index[credential := listed];
        }
      }
    }

    method RegisterUser(lib: Libraries, env: Env, user: Account) returns (r: Outcome<bool>)
      modifies this`users
      ensures Now() == Step(lib, old(Now()), env, ContractState.RegisterUser(user))
      ensures r.Panic? <==> env.predecessor != user && env.predecessor != env.current && env.predecessor !in admins
      ensures r.Return? ==> (r.value <==> user !in old(users)) && user in users
    {
      if env.predecessor != user && env.predecessor != env.current && env.predecessor !in admins { return Panic; }
      if user in users {
        assert users + {user} == users;
        return Return(false);
      }
      users := users + {user};
      r := Return(true);
    }

    method StoreAuthenticator(lib: Libraries, env: Env, user: Account, credential: CredentialId, publicKey: seq<Byte>,
                              transports: Option<seq<Transport>>, registered: string, vrfKey: Key)
      returns (r: Outcome<bool>)
      modifies this`authenticators, this`index
      ensures Now() == Step(lib, old(Now()), env, ContractState.StoreAuthenticator(
                              user, credential, publicKey, transports, registered, vrfKey))
      ensures r == if env.predecessor == user then Return(true) else Panic
    {
      if env.predecessor != user { return Panic; }
      var authenticator := Verification.StoredAuthenticator(publicKey, transports, registered, [vrfKey]);
      if user !in authenticators {
        authenticators := authenticators[user := map[]];
      }
      authenticators := authenticators[user := authenticators[user][credential := authenticator]];
      AddCredentialUserMapping(credential, user);
      r := Return(true);
    }

    method AddVrfKeyToAuthenticator(lib: Libraries, env: Env, credential: CredentialId, key: Key)
      returns (added: bool)
      modifies this`authenticators
      ensures Now() == Step(lib, old(Now()), env, AddVrfKey(credential, key))
      ensures added <==> Lookup(old(Now()), env.predecessor, credential).Some?
                         && key !in Keys(old(Now()), env.predecessor, credential)
      ensures !added ==> Now() == old(Now())
      ensures added ==>
                var window := old(Keys(Now(), env.predecessor, credential)) + [key];
                Keys(Now(), env.predecessor, credential) ==
                if |window| > settings.maxKeys then window[1..] else window
    {
      var user := env.predecessor;
      if user !in authenticators || credential !in authenticators[user] { return false; }
      var a := authenticators[user][credential];
      if key in a.vrfKeys { return false; }
      var keys := a.vrfKeys + [key];
      if |keys| > settings.maxKeys {
        keys := keys[1..];
      }
      authenticators := authenticators[user := authenticators[user][credential := a.(vrfKeys := keys)]];
      added := true;
    }

    method UpdateVrfSettings(lib: Libraries, env: Env, newSettings: VrfSettings) returns (r: Outcome<()>)
      modifies this`settings
      ensures Now() == Step(lib, old(Now()), env, ContractState.UpdateVrfSettings(newSettings))
      ensures r.Panic? <==> env.predecessor != env.current
    {
      if env.predecessor != env.current { return Panic; }
      settings := newSettings;
      r := Return(());
    }

    method AddAdmin(lib: Libraries, env: Env, admin: Account) returns (r: Outcome<bool>)
      modifies this`admins
      ensures Now() == Step(lib, old(Now()), env, ContractState.AddAdmin(admin))
      ensures r == if env.predecessor == env.current then Return(admin !in old(admins)) else Panic
    {
      if env.predecessor != env.current { return Panic; }
      if admin in admins {
        assert admins + {admin} == admins;
        return Return(false);
      }
      admins := admins + {admin};
      r := Return(true);
    }

    method RemoveAdmin(lib: Libraries, env: Env, admin: Account) returns (r: Outcome<bool>)
      modifies this`admins
      ensures Now() == Step(lib, old(Now()), env, ContractState.RemoveAdmin(admin))
      ensures r == if env.predecessor == env.current then Return(admin in old(admins)) else Panic
    {
      if env.predecessor != env.current { return Panic; }
      if admin !in admins {
        assert admins - {admin} == admins;
        return Return(false);
      }
      admins := admins - {admin};
      r := Return(true);
    }

    /** Storing after a verified registration: neither inner permission check can abort. */
    method StoreAuthenticatorAndUser(lib: Libraries, env: Env, info: RegistrationInfo, r: RegistrationCredential,
                                     v: VrfData) returns (stored: Outcome<Registration>)
      modifies this`authenticators, this`index, this`users
      ensures Now() == Apply(old(Now()), Store(env.predecessor, Encode64(info.credentialId),
                                               NewAuthenticator(env, v, r, info), true))
      ensures stored == Return(Some(info))
    {
      var id := Encode64(info.credentialId);
      var transports := if r.transports.Some? then Some(Transports(r.transports.value)) else None;
      var timestamp := Decimal.ToString(env.timestampMs);
      var user := env.predecessor;
      var ok := StoreAuthenticator(lib, env, user, id, info.publicKey, transports, timestamp, v.publicKey);
      assert ok.Return?;
      if user !in users {
        var registered := RegisterUser(lib, env, user);
        assert registered.Return?;
      } else {
        assert users + {user} == users;
      }
      stored := Return(Some(info));
    }

    method VerifyAndRegisterUser(lib: Libraries, env: Env, v: VrfData, r: RegistrationCredential)
      returns (response: Outcome<Registration>)
      modifies this`authenticators, this`index, this`users
      ensures Now() == Step(lib, old(Now()), env, VerifyAndRegister(v, r))
      ensures response == RegistrationCheck(lib, env.height, old(settings).maxBlockAge, v, r)
    {
      hide RegistrationCheck, NewAuthenticator, Encode64;
      var checked := RegistrationCheck(lib, env.height, settings.maxBlockAge, v, r);
      match checked {
        case Panic => return Panic;
        case Return(None) => return Return(None);
        case Return(Some(info)) =>
          response := StoreAuthenticatorAndUser(lib, env, info, r, v);
      }
    }

    /** The read-only question. */
    method CheckCanRegisterUser(lib: Libraries, env: Env, v: VrfData, r: RegistrationCredential)
      returns (answer: Outcome<CanRegister>)
      ensures answer == CheckCanRegister(lib, Now(), env, v, r)
    {
      hide ExtractChallenge, VerifyCredential;
      if !lib.isAccountId(v.userId) { return Return(CanRegister(false, false)); }
      var userExists := v.userId in users;
      match ExtractChallenge(lib, env.height, settings.maxBlockAge, v) {
        case Panic => return Panic;
        case Return(None) => return Return(CanRegister(false, userExists));
        case Return(Some(challenge)) =>
          var verified := VerifyCredential(lib, r, challenge, v.rpId, true);
          return Return(CanRegister(verified.Some?, userExists));
      }
    }

    /** Whoever calls, the credential is looked up under the user the VRF data names. */
    method VerifyAuthenticationResponse(lib: Libraries, env: Env, v: VrfData, credential: AuthenticationCredential)
      returns (answer: Outcome<Option<AuthenticationInfo>>)
      ensures answer == AuthenticationAnswer(lib, Now(), env.height, v, credential)
      ensures answer.Return? && answer.value.Some? ==>
                && v.userId in authenticators && credential.id in authenticators[v.userId]
                && Authenticated(lib, env.height, settings.maxBlockAge, v, credential,
                                 authenticators[v.userId][credential.id], answer.value.value)
    {
      hide VerifyAuthentication, Authenticated;
      var stored := None;
      if v.userId in authenticators && credential.id in authenticators[v.userId] {
        stored := Some(authenticators[v.userId][credential.id]);
      }
      answer := VerifyAuthentication(lib, env.height, settings.maxBlockAge, v, credential, stored);
      if answer.Return? && answer.value.Some? {
        VerifiedImpliesAuthenticated(lib, env.height, settings.maxBlockAge, v, credential, stored);
      }
    }
  }

  // ---------- registration ----------

  /** The read-only question, answered from the same check. */
  function CheckCanRegister(lib: Libraries, s: State, env: Env, v: VrfData, r: RegistrationCredential)
    : Outcome<CanRegister>
  {
    if !lib.isAccountId(v.userId) then Return(CanRegister(false, false))
    else
      match ExtractChallenge(lib, env.height, s.settings.maxBlockAge, v)
      case Panic => Panic
      case Return(None) => Return(CanRegister(false, v.userId in s.users))
      case Return(Some(challenge)) =>
        Return(CanRegister(VerifyCredential(lib, r, challenge, v.rpId, true).Some?, v.userId in s.users))
  }

  /** check_can_register_user predicts verify_and_register_user: the two verify, refuse and abort together,
      except that the first also refuses a user id that is not an account id, and then knows no user. */
  lemma CheckPredictsRegistration(lib: Libraries, s: State, env: Env, v: VrfData, r: RegistrationCredential)
    ensures var check := CheckCanRegister(lib, s, env, v, r);
            var answer := RegistrationCheck(lib, env.height, s.settings.maxBlockAge, v, r);
            check == (if !lib.isAccountId(v.userId) then Return(CanRegister(false, false))
                      else if answer.Panic? then Panic
                      else Return(CanRegister(answer.value.Some?, v.userId in s.users)))
  {
    hide ExtractChallenge, VerifyCredential;
  }

  /** `t` differs from `s` only in the caller's entry for one credential, the caller's place in that
      credential's list, and the caller's membership. */
  ghost predicate OnlyCallerChanged(s: State, t: State, caller: Account, credential: CredentialId) {
    && t.settings == s.settings && t.admins == s.admins
    && (forall u, c :: u != caller || c != credential ==> Lookup(t, u, c) == Lookup(s, u, c))
    && (forall c :: c != credential ==> Listed(t.index, c) == Listed(s.index, c))
    && Listed(t.index, credential) ==
       Listed(s.index, credential) + (if caller in Listed(s.index, credential) then [] else [caller])
    && t.users == s.users + {caller}
  }

  lemma StoreChangesOnlyTheCaller(s: State, caller: Account, credential: CredentialId, a: StoredAuthenticator)
    ensures OnlyCallerChanged(s, Apply(s, Store(caller, credential, a, true)), caller, credential)
    ensures Lookup(Apply(s, Store(caller, credential, a, true)), caller, credential) == Some(a)
  {}

  lemma NothingKeeps(s: State)
    ensures Apply(s, Nothing) == s
  {}

  /** An unverified registration leaves the whole state as it was; a verified one stores the attested
      credential for the caller, with the VRF key as its whole window, and changes nothing else. */
  lemma RegistrationFootprint(lib: Libraries, s: State, env: Env, v: VrfData, r: RegistrationCredential)
    ensures var answer := RegistrationCheck(lib, env.height, s.settings.maxBlockAge, v, r);
            var t := Step(lib, s, env, VerifyAndRegister(v, r));
            && (answer in {Panic, Return(None)} ==> t == s)
            && (answer.Return? && answer.value.Some? ==>
                  var id := Encode64(answer.value.value.credentialId);
                  var transports := if r.transports.Some? then Some(Transports(r.transports.value)) else None;
                  var time := Decimal.ToString(env.timestampMs);
                  && OnlyCallerChanged(s, t, env.predecessor, id)
                  && Lookup(t, env.predecessor, id) ==
                     Some(StoredAuthenticator(answer.value.value.publicKey, transports, time, [v.publicKey])))
  {
    hide RegistrationCheck, OnlyCallerChanged, Encode64, Apply;
    NothingKeeps(s);
    var answer := RegistrationCheck(lib, env.height, s.settings.maxBlockAge, v, r);
    if answer.Return? && answer.value.Some? {
      var info := answer.value.value;
      StoreChangesOnlyTheCaller(s, env.predecessor, Encode64(info.credentialId), NewAuthenticator(env, v, r, info));
    }
  }

  /** Whoever could register once can never be locked out by another account: no call by anyone else
      changes an account's authenticators. */
  lemma OthersCannotTouch(lib: Libraries, s: State, env: Env, call: Call, user: Account, credential: CredentialId)
    requires env.predecessor != user
    ensures Lookup(Step(lib, s, env, call), user, credential) == Lookup(s, user, credential)
  {
    hide RegistrationCheck, NewAuthenticator, Encode64;
  }
}
