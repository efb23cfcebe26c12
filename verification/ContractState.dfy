/** The WebAuthn contract's stored state and what each public call does to it. A call that panics leaves
    the state as it was. */
module ContractState {
  import opened Common
  import opened Verifiers
  import opened Verification
  import Decimal

  type Account = string
  type CredentialId = string
  type Key = seq<Byte>

  datatype VrfSettings = VrfSettings(maxInputAgeMs: U64, maxBlockAge: U64, enabled: bool, maxKeys: nat)

  const DEFAULT_SETTINGS := VrfSettings(300_000, 100, true, 5)

  /** The forward map, the membership set, the reverse index, and the administration. */
  datatype State = State(
    settings: VrfSettings,
    admins: set<Account>,
    authenticators: map<Account, map<CredentialId, StoredAuthenticator>>,
    users: set<Account>,
    index: map<CredentialId, seq<Account>>)

  const INITIAL := State(DEFAULT_SETTINGS, {}, map[], {}, map[])

  /** What the chain supplies to a call. */
  datatype Env = Env(predecessor: Account, current: Account, height: U64, timestampMs: nat)

  datatype Call =
    | StoreAuthenticator(user: Account, credential: CredentialId, publicKey: seq<Byte>,
                         transports: Option<seq<Transport>>, registered: string, vrfKey: Key)
    | AddVrfKey(credential: CredentialId, key: Key)
    | RegisterUser(user: Account)
    | VerifyAndRegister(vrf: VrfData, registration: RegistrationCredential)
    | UpdateVrfSettings(settings: VrfSettings)
    | AddAdmin(admin: Account)
    | RemoveAdmin(admin: Account)
    | View

  /** The state change a call amounts to. */
  datatype Change =
    | Nothing
    | Store(user: Account, credential: CredentialId, authenticator: StoredAuthenticator, register: bool)
    | Push(user: Account, credential: CredentialId, key: Key)
    | Enroll(user: Account)
    | Configure(settings: VrfSettings)
    | Appoint(admin: Account)
    | Dismiss(admin: Account)

  // ---------- reading the state ----------

  function Lookup(s: State, user: Account, credential: CredentialId): Option<StoredAuthenticator> {
    if user in s.authenticators && credential in s.authenticators[user]
    then Some(s.authenticators[user][credential])
    else None
  }

  /** The window of VRF keys of one credential; empty when it is not stored. */
  function Keys(s: State, user: Account, credential: CredentialId): seq<Key> {
    match Lookup(s, user, credential) case Some(a) => a.vrfKeys case None => []
  }

  function Listed(index: map<CredentialId, seq<Account>>, credential: CredentialId): seq<Account> {
    if credential in index then index[credential] else []
  }

  predicate CanRegister(s: State, env: Env, user: Account) {
    env.predecessor == user || env.predecessor == env.current || env.predecessor in s.admins
  }

  // ---------- the reverse index ----------

  function AddMapping(index: map<CredentialId, seq<Account>>, credential: CredentialId, user: Account)
    : map<CredentialId, seq<Account>>
  {
    var users := Listed(index, credential);
    if user in users then index else index[credential := users + [user]]
  }

  function Without(users: seq<Account>, user: Account): seq<Account> {
    if users == [] then [] else (if users[0] == user then [] else [users[0]]) + Without(users[1..], user)
  }

  function RemoveMapping(index: map<CredentialId, seq<Account>>, credential: CredentialId, user: Account)
    : map<CredentialId, seq<Account>>
  {
    if credential !in index then index
    else
      var users := Without(index[credential], user);
      if users == [] then index - {credential} else index[credential := users]
  }

  // ---------- changes ----------

  /** The window after a key is pushed: the oldest goes once the limit is passed. */
  function Slide(keys: seq<Key>, key: Key, limit: nat): seq<Key> {
    var grown := keys + [key];
    if |grown| > limit then grown[1..] else grown
  }

  function PutAuthenticator(s: State, user: Account, credential: CredentialId, a: StoredAuthenticator): State {
    var own := if user in s.authenticators then s.authenticators[user] else map[];
    s.(authenticators := s.authenticators[user := own[credential := a]])
  }

  function Apply(s: State, change: Change): State {
    match change
    case Nothing => s
    case Store(user, credential, a, register) =>
      var t := PutAuthenticator(s, user, credential, a);
      var u := t.(index := AddMapping(s.index, credential, user));
      if register then u.(users := s.users + {user}) else u
    case Push(user, credential, key) =>
      (match Lookup(s, user, credential)
       case None => s
       case Some(a) => PutAuthenticator(s, user, credential,
                                        a.(vrfKeys := Slide(a.vrfKeys, key, s.settings.maxKeys))))
    case Enroll(user) => s.(users := s.users + {user})
    case Configure(settings) => s.(settings := settings)
    case Appoint(admin) => s.(admins := s.admins + {admin})
    case Dismiss(admin) => s.(admins := s.admins - {admin})
  }

  function TransportOf(t: string): seq<Transport> {
    if t == "usb" then [Usb] else if t == "nfc" then [Nfc] else if t == "ble" then [Ble]
    else if t == "internal" then [Internal] else if t == "hybrid" then [Hybrid] else []
  }

  function Transports(ts: seq<string>): seq<Transport> {
    if ts == [] then [] else TransportOf(ts[0]) + Transports(ts[1..])
  }

  function NameOf(t: Transport): string {
    match t
    case Usb => "usb"
    case Nfc => "nfc"
    case Ble => "ble"
    case Internal => "internal"
    case Hybrid => "hybrid"
  }

  function NamesOf(ts: seq<Transport>): seq<string> {
    if ts == [] then [] else [NameOf(ts[0])] + NamesOf(ts[1..])
  }

  predicate IsTransportName(t: string) {
    t == "usb" || t == "nfc" || t == "ble" || t == "internal" || t == "hybrid"
  }

  function KnownNames(ts: seq<string>): seq<string> {
    if ts == [] then [] else (if IsTransportName(ts[0]) then [ts[0]] else []) + KnownNames(ts[1..])
  }

  /** The transports read are those whose names are known, in order; the others are skipped. */
  lemma {:induction false} TransportsAreTheKnownNames(ts: seq<string>)
    ensures NamesOf(Transports(ts)) == KnownNames(ts)
  {
    if ts != [] {
      TransportsAreTheKnownNames(ts[1..]);
      var head := TransportOf(ts[0]);
      if head == [] {
        assert [] + Transports(ts[1..]) == Transports(ts[1..]);
        assert [] + KnownNames(ts[1..]) == KnownNames(ts[1..]);
      } else {
        assert (head + Transports(ts[1..]))[1..] == Transports(ts[1..]);
      }
    }
  }

  /** The authenticator a verified registration stores. */
  function NewAuthenticator(env: Env, v: VrfData, r: RegistrationCredential, info: RegistrationInfo)
    : StoredAuthenticator
  {
    var transports := if r.transports.Some? then Some(Transports(r.transports.value)) else None;
    StoredAuthenticator(info.publicKey, transports, Decimal.ToString(env.timestampMs), [v.publicKey])
  }

  /** What a call changes; Panic when it aborts. */
  function Decide(lib: Libraries, s: State, env: Env, call: Call): Outcome<Change> {
    match call
    case StoreAuthenticator(user, credential, publicKey, transports, registered, vrfKey) =>
      if env.predecessor != user then Panic
      else Return(Store(user, credential, StoredAuthenticator(publicKey, transports, registered, [vrfKey]), false))
    case AddVrfKey(credential, key) =>
      if Lookup(s, env.predecessor, credential).None? || key in Keys(s, env.predecessor, credential)
      then Return(Nothing)
      else Return(Push(env.predecessor, credential, key))
    case RegisterUser(user) =>
      if CanRegister(s, env, user) then Return(Enroll(user)) else Panic
    case VerifyAndRegister(v, r) =>
      (match RegistrationCheck(lib, env.height, s.settings.maxBlockAge, v, r)
       case Panic => Panic
       case Return(None) => Return(Nothing)
       case Return(Some(info)) =>
         Return(Store(env.predecessor, Encode64(info.credentialId), NewAuthenticator(env, v, r, info), true)))
    case UpdateVrfSettings(settings) =>
      if env.predecessor == env.current then Return(Configure(settings)) else Panic
    case AddAdmin(admin) =>
      if env.predecessor == env.current then Return(Appoint(admin)) else Panic
    case RemoveAdmin(admin) =>
      if env.predecessor == env.current then Return(Dismiss(admin)) else Panic
    case View => Return(Nothing)
  }

  function Step(lib: Libraries, s: State, env: Env, call: Call): State {
    match Decide(lib, s, env, call)
    case Panic => s
    case Return(change) => Apply(s, change)
  }

  /** The answer of verify_authentication_response: it looks the credential up under the user the VRF data
      names, whoever calls. */
  function AuthenticationAnswer(lib: Libraries, s: State, height: U64, v: VrfData,
                                credential: AuthenticationCredential): Outcome<Option<AuthenticationInfo>>
  {
    VerifyAuthentication(lib, height, s.settings.maxBlockAge, v, credential, Lookup(s, v.userId, credential.id))
  }
}
