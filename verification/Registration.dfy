/** registerPasskey: a chain of steps any of which may throw, progress flags, and the compensation that
    runs when one does. */
module Registration {
  import opened Common
  import opened ClientDb

  /** What the registration does to the world, one entry for each attempt. */
  datatype Step =
    | Emit            // the caller's event callback
    | BeforeCall
    | Validate
    | Bootstrap       // the VRF keypair and challenge
    | Ceremony        // the WebAuthn registration
    | Derive          // the keys, and the contract's read-only check
    | CreateAccount
    | AwaitAccessKey
    | Sign            // yields the registration and the deletion transaction
    | Verified        // the worker's answer says so
    | Broadcast
    | StoreUser       // the user row and the last user
    | ExtractKey      // a worker call between the database writes
    | Store           // the passkey row and the WebAuthn data
    | StoreEmit       // the event the storing code itself sends once the rows are written
    | Unlock
    | AfterCall
    | RollbackDb
    | SendDelete
    | OnError

  datatype Flags = Flags(accountCreated: bool, deleteCaptured: bool, contractRegistered: bool, databaseStored: bool)

  /** An attempted step, whether it succeeded, and the flags when it was attempted. */
  datatype Entry = Entry(step: Step, ok: bool, flags: Flags)

  /** Stored implies registered on the contract, which implies an account that can be deleted again. */
  predicate Chained(f: Flags) {
    && (f.databaseStored ==> f.contractRegistered)
    && (f.contractRegistered ==> f.accountCreated && f.deleteCaptured)
    && (f.deleteCaptured ==> f.accountCreated)
  }

  const NOTHING_DONE := Flags(false, false, false, false)

  /** The steps of a registration, in order; each is attempted once, but for the looks for the access key. */
  const PLAN: seq<Step> := [
    Emit, BeforeCall, Emit, Validate, Emit, Bootstrap, Emit, Ceremony, Emit, Derive, Emit, Emit,
    CreateAccount, Emit, AwaitAccessKey, Emit, Sign, Verified, Emit, Broadcast, Emit,
    Emit, StoreUser, ExtractKey, Store, StoreEmit, Emit, Unlock, Emit, AfterCall]

  lemma BeginPlaces()
    ensures |PLAN| == 30
    ensures PLAN[0] == Emit && PLAN[1] == BeforeCall && PLAN[2] == Emit && PLAN[3] == Validate
  {}

  lemma CeremonyPlaces()
    ensures |PLAN| == 30
    ensures PLAN[4] == Emit && PLAN[5] == Bootstrap && PLAN[6] == Emit && PLAN[7] == Ceremony
  {}

  lemma KeyPlaces()
    ensures |PLAN| == 30
    ensures PLAN[8] == Emit && PLAN[9] == Derive && PLAN[10] == Emit && PLAN[11] == Emit
  {}

  lemma AccountPlaces()
    ensures |PLAN| == 30
    ensures PLAN[12] == CreateAccount && PLAN[13] == Emit && PLAN[14] == AwaitAccessKey && PLAN[15] == Emit
  {}

  lemma ContractPlaces()
    ensures |PLAN| == 30
    ensures PLAN[16] == Sign && PLAN[17] == Verified && PLAN[18] == Emit && PLAN[19] == Broadcast && PLAN[20] == Emit
  {}

  lemma StoringPlaces()
    ensures |PLAN| == 30
    ensures PLAN[21] == Emit && PLAN[22] == StoreUser && PLAN[23] == ExtractKey && PLAN[24] == Store
    ensures PLAN[25] == StoreEmit && PLAN[26] == Emit && PLAN[27] == Unlock && PLAN[28] == Emit && PLAN[29] == AfterCall
  {}

  lemma NoStoring(at: nat)
    requires at < |PLAN| && !(22 <= at <= 25)
    ensures PLAN[at] != StoreUser && PLAN[at] != StoreEmit
  {}

  /** The place of StoreUser. */
  const STORING := 22

  // ---------- reading the log ----------

  predicate AllChained(log: seq<Entry>) {
    forall i :: 0 <= i < |log| ==> Chained(log[i].flags)
  }

  /** The compensating steps, without the events around them. */
  function Compensations(log: seq<Entry>): seq<Step> {
    if log == [] then []
    else
      var last := log[|log| - 1];
      Compensations(log[..|log| - 1]) + (if last.step in {RollbackDb, SendDelete} then [last.step] else [])
  }

  /** What is to be compensated, in reverse order of doing. */
  function Due(f: Flags): seq<Step> {
    (if f.databaseStored then [RollbackDb] else [])
    + (if f.accountCreated && f.deleteCaptured then [SendDelete] else [])
  }

  function Steps(log: seq<Entry>): seq<Step> {
    seq(|log|, i requires 0 <= i < |log| => log[i].step)
  }

  lemma StepsGrow(log: seq<Entry>, e: Entry, k: nat)
    requires k <= |log|
    ensures Steps((log + [e])[k..]) == Steps(log[k..]) + [e.step]
  {
    assert (log + [e])[k..] == log[k..] + [e];
  }

  lemma NoSteps(log: seq<Entry>)
    ensures Steps(log[|log|..]) == []
  {}

  /** What the rollback goes through for the account: the deletion if it was captured, and events. */
  function AccountSteps(f: Flags): seq<Step> {
    if !f.accountCreated then [] else if f.deleteCaptured then [Emit, SendDelete, Emit] else [Emit, Emit]
  }

  /** All that the rollback goes through: the database, the account, and the contract, which only gets an event. */
  function RollbackSteps(f: Flags): seq<Step> {
    (if f.databaseStored then [Emit, RollbackDb] else [])
    + AccountSteps(f)
    + (if f.contractRegistered then [Emit] else [])
  }

  predicate Has(log: seq<Entry>, p: Entry -> bool) {
    exists i :: 0 <= i < |log| && p(log[i])
  }

  /** The first database request of the storing code has been made. */
  predicate StoringReached(e: Entry) { e.step == StoreUser }

  predicate StoreEmitFailed(e: Entry) { e.step == StoreEmit && !e.ok }

  predicate RolledBackOk(e: Entry) { e.step == RollbackDb && e.ok }

  /** An event or the database rollback that failed. */
  predicate Hindered(e: Entry) { !e.ok && e.step in {Emit, RollbackDb} }

  /** Something has hindered the compensation at or after position `k`. */
  predicate HinderedSince(log: seq<Entry>, k: nat) {
    k <= |log| && Has(log[k..], Hindered)
  }

  /** Nothing but looks for the access key has failed. */
  predicate OnlyLooksFailed(log: seq<Entry>) {
    forall i :: 0 <= i < |log| ==> log[i].ok || log[i].step == AwaitAccessKey
  }

  /** The log ends with the failure that broke off the try block. */
  predicate BrokenOff(log: seq<Entry>) {
    log != [] && !log[|log| - 1].ok && OnlyLooksFailed(log[..|log| - 1])
  }

  // ---------- the plan ----------

  /** The steps that succeeded, in order. */
  function Done(log: seq<Entry>): seq<Step> {
    if log == [] then []
    else
      var last := log[|log| - 1];
      Done(log[..|log| - 1]) + (if last.ok then [last.step] else [])
  }

  /** Every entry attempts the step that the plan has next after those done before. */
  predicate KeepsPlan(log: seq<Entry>) {
    log == []
    || (var front := log[..|log| - 1];
        KeepsPlan(front) && |Done(front)| < |PLAN| && log[|log| - 1].step == PLAN[|Done(front)|])
  }

  lemma PlanGrows(log: seq<Entry>, e: Entry)
    requires KeepsPlan(log) && |Done(log)| < |PLAN| && e.step == PLAN[|Done(log)|]
    ensures KeepsPlan(log + [e]) && |Done(log + [e])| == |Done(log)| + if e.ok then 1 else 0
  {
    assert (log + [e])[..|log|] == log;
  }

  lemma {:induction false} DoneIsPlanned(log: seq<Entry>)
    requires KeepsPlan(log)
    ensures Done(log) <= PLAN
  {
    hide PLAN;
    if log != [] {
      DoneIsPlanned(log[..|log| - 1]);
    }
  }

  lemma BrokenOffIsShort(log: seq<Entry>)
    requires KeepsPlan(log) && BrokenOff(log)
    ensures |Done(log)| < |PLAN|
  {}

  /** How often the access key was looked for. */
  function Looks(log: seq<Entry>): nat {
    if log == [] then 0 else Looks(log[..|log| - 1]) + if log[|log| - 1].step == AwaitAccessKey then 1 else 0
  }

  lemma LooksGrow(log: seq<Entry>, e: Entry)
    ensures Looks(log + [e]) == Looks(log) + if e.step == AwaitAccessKey then 1 else 0
  {
    assert (log + [e])[..|log|] == log;
  }

  /** At most ten looks, and all ten when the last entry is a look that failed. */
  predicate Persevered(log: seq<Entry>) {
    && Looks(log) <= 10
    && (log != [] && log[|log| - 1].step == AwaitAccessKey && !log[|log| - 1].ok ==> Looks(log) == 10)
  }

  // ---------- the flags ----------

  predicate Succeeded(log: seq<Entry>, step: Step) {
    exists i :: 0 <= i < |log| && log[i].step == step && log[i].ok
  }

  /** Each flag is up exactly when its step has succeeded; the database counts as stored with the last step of
      the storing code. */
  predicate Tells(f: Flags, log: seq<Entry>) {
    && (f.accountCreated <==> Succeeded(log, CreateAccount))
    && (f.deleteCaptured <==> Succeeded(log, Sign))
    && (f.contractRegistered <==> Succeeded(log, Broadcast))
    && (f.databaseStored <==> Succeeded(log, StoreEmit))
  }

  /** At every entry the flags told what had succeeded before it. */
  predicate AllTold(log: seq<Entry>) {
    forall i :: 0 <= i < |log| ==> Tells(log[i].flags, log[..i])
  }

  /** The steps outside the database fail exactly where the given pattern says. */
  predicate FailsAsTold(faults: nat -> bool, log: seq<Entry>) {
    forall i :: 0 <= i < |log| && !InDatabase(log[i].step) ==> (log[i].ok <==> !faults(i))
  }

  predicate InDatabase(step: Step) {
    step == StoreUser || step == Store || step == RollbackDb
  }

  predicate Sound(faults: nat -> bool, f: Flags, log: seq<Entry>) {
    Chained(f) && AllChained(log) && Tells(f, log) && AllTold(log) && FailsAsTold(faults, log)
  }

  /** The flags once the code behind a step has run. */
  function After(f: Flags, step: Step, ok: bool): Flags {
    if !ok then f
    else if step == CreateAccount then f.(accountCreated := true)
    else if step == Sign then f.(deleteCaptured := true)
    else if step == Broadcast then f.(contractRegistered := true)
    else if step == StoreEmit then f.(databaseStored := true)
    else f
  }

  lemma SucceededGrows(log: seq<Entry>, e: Entry, step: Step)
    ensures Succeeded(log + [e], step) <==> Succeeded(log, step) || (e.step == step && e.ok)
  {
    if i :| 0 <= i < |log| && log[i].step == step && log[i].ok {
      assert (log + [e])[i] == log[i];
    }
    assert (log + [e])[|log|] == e;
  }

  lemma TellsGrows(f: Flags, log: seq<Entry>, e: Entry)
    requires Tells(f, log)
    ensures Tells(After(f, e.step, e.ok), log + [e])
  {
    hide Succeeded;
    SucceededGrows(log, e, CreateAccount);
    SucceededGrows(log, e, Sign);
    SucceededGrows(log, e, Broadcast);
    SucceededGrows(log, e, StoreEmit);
  }

  lemma SoundGrows(faults: nat -> bool, f: Flags, log: seq<Entry>, e: Entry)
    requires Sound(faults, f, log) && e.flags == f && Chained(After(f, e.step, e.ok))
    requires InDatabase(e.step) || (e.ok <==> !faults(|log|))
    ensures Sound(faults, After(f, e.step, e.ok), log + [e])
  {
    hide Tells, Chained, After;
    TellsGrows(f, log, e);
    ChainGrows(log, e);
    forall i | 0 <= i <= |log| ensures Tells((log + [e])[i].flags, (log + [e])[..i]) {
      assert (log + [e])[..i] == log[..i];
      if i == |log| {
        assert log[..i] == log;
      }
    }
  }

  lemma SoundParts(faults: nat -> bool, f: Flags, log: seq<Entry>)
    requires Sound(faults, f, log)
    ensures Chained(f) && AllChained(log) && Tells(f, log) && AllTold(log) && FailsAsTold(faults, log)
  {}

  lemma HasGrows(log: seq<Entry>, e: Entry, p: Entry -> bool)
    ensures Has(log + [e], p) <==> Has(log, p) || p(e)
  {
    if i :| 0 <= i < |log| && p(log[i]) {
      assert p((log + [e])[i]);
    }
    if p(e) {
      assert p((log + [e])[|log|]);
    }
  }

  lemma LogGrows(log: seq<Entry>, e: Entry)
    ensures Compensations(log + [e]) ==
            Compensations(log) + (if e.step in {RollbackDb, SendDelete} then [e.step] else [])
    ensures Has(log + [e], StoringReached) <==> Has(log, StoringReached) || StoringReached(e)
    ensures Has(log + [e], StoreEmitFailed) <==> Has(log, StoreEmitFailed) || StoreEmitFailed(e)
    ensures Has(log + [e], RolledBackOk) <==> Has(log, RolledBackOk) || RolledBackOk(e)
  {
    hide Has;
    assert (log + [e])[..|log|] == log;
    HasGrows(log, e, StoringReached);
    HasGrows(log, e, StoreEmitFailed);
    HasGrows(log, e, RolledBackOk);
  }

  lemma ChainGrows(log: seq<Entry>, e: Entry)
    ensures AllChained(log + [e]) <==> AllChained(log) && Chained(e.flags)
  {
    hide Chained;
    assert (log + [e])[|log|] == e;
    assert forall i :: 0 <= i < |log| ==> (log + [e])[i] == log[i];
  }

  lemma HinderedGrows(log: seq<Entry>, e: Entry, k: nat)
    requires k <= |log|
    ensures HinderedSince(log + [e], k) <==> HinderedSince(log, k) || Hindered(e)
  {
    assert (log + [e])[k..] == log[k..] + [e];
    HasGrows(log[k..], e, Hindered);
  }

  /** `log` goes on from `base` with steps of the compensation and of the report after it. */
  predicate Follows(base: seq<Entry>, log: seq<Entry>) {
    && base <= log
    && (Has(log, StoringReached) <==> Has(base, StoringReached))
    && (Has(log, StoreEmitFailed) <==> Has(base, StoreEmitFailed))
  }

  lemma FollowsGrows(base: seq<Entry>, log: seq<Entry>, e: Entry)
    requires Follows(base, log) && e.step in {Emit, SendDelete, OnError, AfterCall, RollbackDb}
    ensures Follows(base, log + [e])
  {
    hide Has;
    LogGrows(log, e);
    assert (log + [e])[..|base|] == log[..|base|];
  }

  lemma FailuresGrow(log: seq<Entry>, e: Entry)
    ensures e.ok || e.step == AwaitAccessKey ==> OnlyLooksFailed(log) ==> OnlyLooksFailed(log + [e])
    ensures !e.ok && OnlyLooksFailed(log) ==> BrokenOff(log + [e])
  {
    assert (log + [e])[..|log|] == log;
  }

  lemma NothingLogged(faults: nat -> bool)
    ensures Clean(faults, NOTHING_DONE, [], 0) && !HinderedSince([], 0) && Looks([]) == 0
  {}

  /** In the try block, with `at` steps of the plan done and nothing but looks failed. */
  predicate Clean(faults: nat -> bool, f: Flags, log: seq<Entry>, at: nat) {
    && Sound(faults, f, log) && KeepsPlan(log) && |Done(log)| == at && OnlyLooksFailed(log)
    && Compensations(log) == [] && !Has(log, RolledBackOk)
    && !Has(log, StoreEmitFailed) && (Has(log, StoringReached) <==> at > STORING)
  }

  /** What a broken-off try block leaves behind. */
  predicate Stopped(faults: nat -> bool, f: Flags, log: seq<Entry>) {
    && Sound(faults, f, log) && KeepsPlan(log) && Compensations(log) == [] && !Has(log, RolledBackOk) && BrokenOff(log)
    && Persevered(log)
  }

  /** Broken off with `at` steps of the plan done, and not by the storing code's own event. */
  predicate StoppedAt(faults: nat -> bool, f: Flags, log: seq<Entry>, at: nat) {
    Stopped(faults, f, log) && !Has(log, StoreEmitFailed) && (Has(log, StoringReached) <==> at > STORING)
  }

  lemma CleanParts(faults: nat -> bool, f: Flags, log: seq<Entry>, at: nat)
    requires Clean(faults, f, log, at)
    ensures Sound(faults, f, log) && KeepsPlan(log) && |Done(log)| == at && OnlyLooksFailed(log)
    ensures Compensations(log) == []
    ensures !Has(log, RolledBackOk) && !Has(log, StoreEmitFailed) && (Has(log, StoringReached) <==> at > STORING)
  {}

  lemma StoppedParts(faults: nat -> bool, f: Flags, log: seq<Entry>)
    requires Stopped(faults, f, log)
    ensures Sound(faults, f, log) && KeepsPlan(log) && Compensations(log) == [] && !Has(log, RolledBackOk)
    ensures BrokenOff(log)
    ensures Persevered(log)
  {}

  lemma StoppedAtParts(faults: nat -> bool, f: Flags, log: seq<Entry>, at: nat)
    requires StoppedAt(faults, f, log, at)
    ensures Stopped(faults, f, log) && !Has(log, StoreEmitFailed) && (Has(log, StoringReached) <==> at > STORING)
  {}

  lemma NeverCompensation(at: nat)
    requires at < |PLAN|
    ensures PLAN[at] != RollbackDb && PLAN[at] != SendDelete
  {}

  lemma AfterChained(faults: nat -> bool, f: Flags, log: seq<Entry>, step: Step, ok: bool)
    requires Sound(faults, f, log) && Chained(After(f, step, true))
    ensures Chained(After(f, step, ok))
  {}

  lemma AfterFailure(f: Flags, step: Step)
    ensures After(f, step, false) == f
  {}

  lemma EndsBroken(faults: nat -> bool, f: Flags, log: seq<Entry>)
    requires Stopped(faults, f, log)
    ensures Sound(faults, f, log) && KeepsPlan(log) && Done(log) != PLAN && BrokenOff(log) && Persevered(log)
    ensures Looks(log) <= 10
    ensures Compensations(log) == [] && !Has(log, RolledBackOk)
  {
    hide Has, Compensations, PLAN, Tells, Chained, BrokenOff, KeepsPlan, Looks, OnlyLooksFailed;
    BrokenOffIsShort(log);
  }

  lemma EndsComplete(faults: nat -> bool, f: Flags, log: seq<Entry>)
    requires Clean(faults, f, log, 30)
    ensures Sound(faults, f, log) && KeepsPlan(log) && Done(log) == PLAN && OnlyLooksFailed(log)
    ensures Compensations(log) == [] && !Has(log, RolledBackOk) && !Has(log, StoreEmitFailed)
    ensures Has(log, StoringReached)
  {
    hide Has, Compensations, PLAN, Tells, Chained, KeepsPlan, OnlyLooksFailed;
    StoringPlaces();
    DoneIsPlanned(log);
  }

  /** The next step of the plan is attempted. */
  lemma PlanGoesOn(faults: nat -> bool, f: Flags, log: seq<Entry>, at: nat, e: Entry)
    requires Clean(faults, f, log, at) && at < |PLAN| && e.step == PLAN[at] && (e.step == StoreUser <==> at == STORING)
    requires e.flags == f && Chained(After(f, e.step, true))
    requires InDatabase(e.step) || (e.ok <==> !faults(|log|))
    ensures e.ok ==> Clean(faults, After(f, e.step, true), log + [e], at + 1)
    ensures !e.ok && Persevered(log + [e]) ==> Stopped(faults, f, log + [e])
    ensures !e.ok && e.step == AwaitAccessKey ==> Clean(faults, f, log + [e], at)
    ensures Has(log + [e], StoreEmitFailed) <==> e.step == StoreEmit && !e.ok
    ensures Has(log + [e], StoringReached) <==> at >= STORING
  {
    hide Sound, KeepsPlan, Done, Compensations, Has, OnlyLooksFailed, BrokenOff, Chained, After, PLAN;
    AfterChained(faults, f, log, e.step, e.ok);
    SoundGrows(faults, f, log, e);
    AfterFailure(f, e.step);
    NeverCompensation(at);
    PlanGrows(log, e);
    LogGrows(log, e);
    FailuresGrow(log, e);
  }

  // ---------- what the stores hold ----------

  /** The account has this user row and this passkey row, and is the last user. */
  predicate HasRows(s: Stores, account: Account, credential: string, user: Row, passkey: Row) {
    && account in s.users && s.users[account] == user
    && (account, credential) in s.authenticators && s.authenticators[(account, credential)] == passkey
    && s.lastUser == Some(account)
  }

  /** No row of the account, and it is not the last user. */
  predicate NoRows(s: Stores, account: Account) {
    account !in s.users && RowsOf(s.authenticators, account) == map[] && s.lastUser != Some(account)
  }

  /** With `begun` the account has its user row, however the writing went on; without, nothing was written. */
  predicate Written(begun: bool, s: Stores, t: Stores, account: Account) {
    if begun then account in t.users else t == s
  }

  lemma NothingTouched(s: Stores, account: Account)
    ensures OnlyTouches(s, s, account)
  {}

  lemma RolledBackHasNoRows(s: Stores, account: Account)
    ensures NoRows(RolledBack(s, account), account)
  {
    RollbackIsThorough(s, account);
  }

  lemma DueByDeletion(f: Flags)
    requires Chained(f)
    ensures Due(f) == (if f.databaseStored then [RollbackDb] else []) + (if f.deleteCaptured then [SendDelete] else [])
  {}

  lemma NothingDue()
    ensures Due(NOTHING_DONE) == []
  {}

  lemma NothingIsPrefix(steps: seq<Step>)
    ensures [] <= steps
  {}

  /** How the call ends: success, a reported failure, or an exception out of an event or hook. */
  datatype Result = Registered | Failed | Rejected

  /** The report of a failure: the error callback, an event and the hook, as long as none of them throws; the
      call then answers with the failure, and otherwise throws itself. */
  predicate Reported(report: seq<Entry>, r: Result) {
    && r != Registered && report != [] && Steps(report) <= [OnError, Emit, AfterCall]
    && (forall i :: 0 <= i < |report| - 1 ==> report[i].ok)
    && (report[|report| - 1].ok <==> |report| == 3 && r == Failed)
  }

  lemma ReportIs(report: seq<Entry>, steps: seq<Step>)
    requires |report| == |steps| && forall i :: 0 <= i < |report| ==> report[i].step == steps[i]
    ensures Steps(report) == steps
  {}

  /** How a failed call recovers between entry `from`, before which it was broken off, and entry `till`, where the
      report begins if the rollback did not throw: the compensations, none of them before, are a prefix of those
      due, and unless something hinders it the rollback goes through all its steps. */
  predicate Recovered(log: seq<Entry>, from: nat, till: nat, f: Flags, r: Result) {
    && from <= till <= |log| && Compensations(log[..from]) == []
    && (HinderedSince(log[..till], from)
        || (Compensations(log[..till]) == Due(f) && Steps(log[from..till]) == RollbackSteps(f)))
    && Compensations(log[..till]) <= Due(f) && Compensations(log) == Compensations(log[..till])
    && (if till < |log| then Reported(log[till..], r) else r == Rejected && EndsInFailedEvent(log))
    && OneEventAfterFailedRollback(log[..till], from)
  }

  /** Only an event of its own can make the rollback throw. */
  predicate EndsInFailedEvent(log: seq<Entry>) {
    log != [] && log[|log| - 1].step == Emit && !log[|log| - 1].ok
  }

  predicate NoFailedRollback(log: seq<Entry>, from: nat) {
    forall i :: from <= i < |log| ==> log[i].step != RollbackDb || log[i].ok
  }

  /** A failed database rollback ends the rollback but for one event. */
  predicate OneEventAfterFailedRollback(log: seq<Entry>, from: nat) {
    NoFailedRollback(log, from)
    || (from + 2 <= |log| && NoFailedRollback(log[..|log| - 2], from) && log[|log| - 1].step == Emit)
  }

  lemma RecoveredParts(log: seq<Entry>, from: nat, till: nat, f: Flags, r: Result)
    requires Recovered(log, from, till, f, r)
    ensures r != Registered && Compensations(log) <= Due(f)
    ensures !HinderedSince(log[..till], from) ==> Compensations(log) == Due(f)
    ensures !f.databaseStored ==> RollbackDb !in Compensations(log)
  {}

  lemma NothingToRecover(log: seq<Entry>)
    requires |log| == 1 && Compensations(log) == [] && KeepsPlan(log) && BrokenOff(log)
    ensures Recovered(log, 1, 1, NOTHING_DONE, Rejected)
  {
    hide PLAN;
    BeginPlaces();
    assert log[..1] == log && log[..0] == [];
  }

  const MAX_RETRIES := 10

  /** The requests of the storing code: the user row and the last user, the passkey row, and the four of
      storing the WebAuthn data. */
  const STORE_REQUESTS := 7

  class Attempt {
    const account: Account
    const credential: string
    const defaults: Row
    const userData: Row
    const passkey: Row
    const db: Database
    const faults: nat -> bool  // whether the n-th logged step outside the database fails
    var accountCreated: bool
    var deleteCaptured: bool
    var contractRegistered: bool
    var databaseStored: bool
    var log: seq<Entry>

    constructor (account: Account, credential: string, defaults: Row, userData: Row, passkey: Row, db: Database,
                 faults: nat -> bool)
      ensures this.account == account && this.credential == credential && this.db == db && log == []
      ensures this.faults == faults && Progress() == NOTHING_DONE
      ensures this.defaults == defaults && this.userData == userData && this.passkey == passkey
    {
      this.account, this.credential, this.db, this.faults := account, credential, db, faults;
      this.defaults, this.userData, this.passkey := defaults, userData, passkey;
      accountCreated, deleteCaptured, contractRegistered, databaseStored := false, false, false, false;
      log := [];
    }

    function Progress(): Flags
      reads this
    {
      Flags(accountCreated, deleteCaptured, contractRegistered, databaseStored)
    }

    /** No step outside the database fails. */
    ghost predicate Calm() {
      forall k :: !faults(k)
    }

    /** The storing code was reached and its first put, which has number `n`, does not fail. */
    predicate Begun(n: nat)
      reads this
    {
      Has(log, StoringReached) && db.isValid(account) && !db.faults(n)
    }

    /** The rows of this registration are in the stores: the WebAuthn data merged into the user row. */
    predicate Stored()
      reads this, db
    {
      HasRows(db.Now(), account, credential, Merge(defaults, userData), passkey)
    }

    /** A step of the try block outside the storing code, at its place in the plan. */
    method Go(step: Step, ghost at: nat) returns (r: Outcome)
      requires at < |PLAN| && PLAN[at] == step && !(STORING <= at <= 25) && step != AwaitAccessKey
      requires Clean(faults, Progress(), log, at) && Chained(After(Progress(), step, true)) && Looks(log) <= 10
      modifies this`log
      ensures Looks(log) == Looks(old(log)) && |log| == |old(log)| + 1 && (r.Throw? <==> faults(|old(log)|))
      ensures if r.Pass? then Clean(faults, After(Progress(), step, true), log, at + 1)
              else StoppedAt(faults, Progress(), log, at)
    {
      hide Clean, Stopped, Has, Chained, After, Looks, PLAN;
      r := if faults(|log|) then Throw else Pass;
      var e := Entry(step, r.Pass?, Progress());
      NoStoring(at);
      LooksGrow(log, e);
      PlanGoesOn(faults, Progress(), log, at, e);
      log := log + [e];
    }

    /** A look for the access key. */
    method Look() returns (r: Outcome)
      requires Clean(faults, Progress(), log, 14) && Progress() == Flags(true, false, false, false) && Looks(log) < 10
      modifies this`log
      ensures Looks(log) == Looks(old(log)) + 1 && |log| == |old(log)| + 1 && (r.Throw? <==> faults(|old(log)|))
      ensures Clean(faults, Progress(), log, if r.Pass? then 15 else 14)
      ensures r.Throw? && Looks(log) == 10 ==> StoppedAt(faults, Progress(), log, 14)
    {
      hide Clean, Stopped, Has, Looks, PLAN;
      AccountPlaces();
      r := if faults(|log|) then Throw else Pass;
      var e := Entry(AwaitAccessKey, r.Pass?, Progress());
      LooksGrow(log, e);
      PlanGoesOn(faults, Progress(), log, 14, e);
      log := log + [e];
    }

    /** Up to ten looks for the access key; it gives up only when every one of them failed. */
    method WaitForAccessKey() returns (r: Outcome)
      requires Clean(faults, Progress(), log, 14) && Progress() == Flags(true, false, false, false) && Looks(log) == 0
      modifies this`log
      ensures if r.Pass? then Clean(faults, Progress(), log, 15) else StoppedAt(faults, Progress(), log, 14)
      ensures |old(log)| < |log| <= |old(log)| + 10 && Looks(log) <= 10
      ensures r.Pass? <==> !faults(|log| - 1)
      ensures forall i :: |old(log)| <= i < |log| - 1 ==> faults(i)
      ensures r.Throw? ==> |log| == |old(log)| + 10
    {
      hide Clean, StoppedAt, Looks;
      r := Throw;
      var attempt := 1;
      while attempt <= MAX_RETRIES
        invariant 1 <= attempt <= MAX_RETRIES + 1 && |log| == |old(log)| + attempt - 1
        invariant Clean(faults, Progress(), log, 14) && Looks(log) == attempt - 1
        invariant forall i :: |old(log)| <= i < |log| ==> faults(i)
        invariant r.Throw? && (attempt == MAX_RETRIES + 1 ==> StoppedAt(faults, Progress(), log, 14))
      {
        r := Look();
        if r.Pass? { return; }
        attempt := attempt + 1;
      }
    }

    /** An entry of the storing code, at its place in the plan. */
    method Note(step: Step, r: Outcome, ghost at: nat)
      requires STORING <= at <= 25 && at < |PLAN| && PLAN[at] == step
      requires Clean(faults, Progress(), log, at) && Progress() == Flags(true, true, true, false) && Looks(log) <= 10
      requires InDatabase(step) || (r.Pass? <==> !faults(|log|))
      modifies this`log
      ensures Has(log, StoringReached) && Looks(log) == Looks(old(log)) && |log| == |old(log)| + 1
      ensures Has(log, StoreEmitFailed) <==> step == StoreEmit && r.Throw?
      ensures if r.Pass? then Clean(faults, After(Progress(), step, true), log, at + 1)
              else Stopped(faults, Progress(), log)
    {
      hide Clean, Stopped, Has, Looks, PLAN;
      StoringPlaces();
      var e := Entry(step, r.Pass?, Progress());
      LooksGrow(log, e);
      PlanGoesOn(faults, Progress(), log, at, e);
      log := log + [e];
    }

    /** atomicStoreRegistrationData: the user row, a worker call, the other rows, then an event of its own.
        However it ends, the user row is there exactly when the first put did not fail. */
    method StoreRegistration() returns (r: Outcome)
      requires !db.isValid("") && Clean(faults, Progress(), log, STORING) && Looks(log) <= 10
      requires Progress() == Flags(true, true, true, false)
      modifies this`log, db
      ensures |log| > |old(log)|
      ensures if r.Pass? then Clean(faults, Flags(true, true, true, true), log, 26)
              else Stopped(faults, Progress(), log)
      ensures Has(log, StoringReached) && OnlyTouches(old(db.Now()), db.Now(), account) && Looks(log) <= 10
      ensures Written(Begun(old(db.operations)), old(db.Now()), db.Now(), account)
      ensures r.Pass? || Has(log, StoreEmitFailed) ==>
                Stored() && db.isValid(account) && Fine(db.faults, old(db.operations), STORE_REQUESTS)
      ensures Has(log, StoreEmitFailed) ==> r.Throw?
    {
      hide Clean, Stopped, Has, OnlyTouches, HasRows, Fine, Looks, PLAN;
      StoringPlaces();
      ghost var n := db.operations;
      FineSplits(db.faults, n, 2, 5);
      FineSplits(db.faults, n, 1, 1);
      r := db.StoreUser(account, defaults);
      Note(StoreUser, r, STORING);
      if r.Throw? { return; }
      ghost var next := db.Now();
      r := StoreTheRest();
      OnlyTouchesChains(old(db.Now()), next, db.Now(), account);
    }

    /** What follows once the user row is in. */
    method StoreTheRest() returns (r: Outcome)
      requires !db.isValid("") && db.isValid(account) && account in db.users && db.users[account] == defaults
      requires Clean(faults, Progress(), log, STORING + 1) && Looks(log) <= 10
      requires Progress() == Flags(true, true, true, false)
      modifies this`log, db
      ensures |log| > |old(log)|
      ensures if r.Pass? then Clean(faults, Flags(true, true, true, true), log, 26)
              else Stopped(faults, Progress(), log)
      ensures Has(log, StoringReached) && Looks(log) <= 10
      ensures OnlyTouches(old(db.Now()), db.Now(), account) && account in db.users
      ensures r.Pass? || Has(log, StoreEmitFailed) ==> Stored() && Fine(db.faults, old(db.operations), 5)
      ensures Has(log, StoreEmitFailed) ==> r.Throw?
    {
      hide Clean, Stopped, Has, OnlyTouches, HasRows, Fine, Looks, PLAN;
      StoringPlaces();
      NothingTouched(db.Now(), account);
      r := if faults(|log|) then Throw else Pass;
      Note(ExtractKey, r, 23);
      if r.Throw? { return; }
      r := WriteOtherRows();
      Note(Store, r, 24);
      if r.Throw? { return; }
      r := if faults(|log|) then Throw else Pass;
      Note(StoreEmit, r, 25);
    }

    method WriteOtherRows() returns (r: Outcome)
      requires !db.isValid("") && db.isValid(account) && account in db.users && db.users[account] == defaults
      modifies db
      ensures OnlyTouches(old(db.Now()), db.Now(), account) && account in db.users
      ensures r.Pass? ==> Stored() && Fine(db.faults, old(db.operations), 5)
    {
      hide OnlyTouches, Fine, Merge;
      ghost var start := db.Now();
      FineSplits(db.faults, db.operations, 1, 4);
      r := db.PutAuthenticator((account, credential), passkey);
      if r.Throw? { return; }
      ghost var next := db.Now();
      r := db.StoreWebAuthnUserData(account, defaults, userData);
      OnlyTouchesChains(start, next, db.Now(), account);
    }

    /** The hook and the validation. */
    method Begin() returns (r: Outcome)
      requires Clean(faults, NOTHING_DONE, log, 1) && Progress() == NOTHING_DONE && Looks(log) == 0
      modifies this`log
      ensures if r.Pass? then Clean(faults, NOTHING_DONE, log, 4) else StoppedAt(faults, NOTHING_DONE, log, 0)
      ensures Looks(log) == 0 && |log| > |old(log)| && (Calm() ==> r.Pass?)
    {
      hide Clean, Looks, PLAN, Stopped, Has;
      BeginPlaces();
      :- Go(BeforeCall, 1);
      :- Go(Emit, 2);
      :- Go(Validate, 3);
      return Pass;
    }

    /** Steps 1 to 3: the challenge and the ceremony. */
    method PerformCeremony() returns (r: Outcome)
      requires Clean(faults, NOTHING_DONE, log, 4) && Progress() == NOTHING_DONE && Looks(log) == 0
      modifies this`log
      ensures if r.Pass? then Clean(faults, NOTHING_DONE, log, 8) else StoppedAt(faults, NOTHING_DONE, log, 0)
      ensures Looks(log) == 0 && |log| > |old(log)| && (Calm() ==> r.Pass?)
    {
      hide Clean, Looks, PLAN, Stopped, Has;
      CeremonyPlaces();
      :- Go(Emit, 4);
      :- Go(Bootstrap, 5);
      :- Go(Emit, 6);
      :- Go(Ceremony, 7);
      return Pass;
    }

    /** Steps 4 to 6: the keys. There is still nothing to undo. */
    method DeriveKeys() returns (r: Outcome)
      requires Clean(faults, NOTHING_DONE, log, 8) && Progress() == NOTHING_DONE && Looks(log) == 0
      modifies this`log
      ensures if r.Pass? then Clean(faults, NOTHING_DONE, log, 12) else StoppedAt(faults, NOTHING_DONE, log, 0)
      ensures Looks(log) == 0 && |log| > |old(log)| && (Calm() ==> r.Pass?)
    {
      hide Clean, Looks, PLAN, Stopped, Has;
      KeyPlaces();
      :- Go(Emit, 8);
      :- Go(Derive, 9);
      :- Go(Emit, 10);
      :- Go(Emit, 11);
      return Pass;
    }

    /** Step 7: the account. */
    method CreateTheAccount() returns (r: Outcome)
      requires Clean(faults, NOTHING_DONE, log, 12) && Progress() == NOTHING_DONE && Looks(log) == 0
      modifies this`log, this`accountCreated
      ensures if r.Pass? then Clean(faults, Progress(), log, 16) && accountCreated
              else StoppedAt(faults, Progress(), log, 0)
      ensures Looks(log) <= 10 && |log| > |old(log)| && (Calm() ==> r.Pass?)
    {
      hide Clean, Looks, PLAN, Stopped, Has;
      AccountPlaces();
      :- Go(CreateAccount, 12);
      accountCreated := true;
      :- Go(Emit, 13);
      :- WaitForAccessKey();
      :- Go(Emit, 15);
      return Pass;
    }

    /** Step 8: the registration on the contract. */
    method RegisterOnChain() returns (r: Outcome)
      requires Clean(faults, Progress(), log, 16) && Progress() == Flags(true, false, false, false) && Looks(log) <= 10
      modifies this`log, this`deleteCaptured, this`contractRegistered
      ensures if r.Pass? then Clean(faults, Progress(), log, 21) && deleteCaptured && contractRegistered
              else StoppedAt(faults, Progress(), log, 0)
      ensures Looks(log) <= 10 && |log| > |old(log)| && (Calm() ==> r.Pass?)
    {
      hide Clean, Looks, PLAN, Stopped, Has;
      ContractPlaces();
      :- Go(Sign, 16);
      deleteCaptured := true;
      :- Go(Verified, 17);
      :- Go(Emit, 18);
      :- Go(Broadcast, 19);
      contractRegistered := true;
      :- Go(Emit, 20);
      return Pass;
    }

    /** Steps 9 and 10: the database and the session. */
    method StoreAndUnlock() returns (r: Outcome)
      requires !db.isValid("") && Clean(faults, Progress(), log, 21) && Looks(log) <= 10
      requires Progress() == Flags(true, true, true, false)
      modifies this`log, this`databaseStored, db
      ensures |log| > |old(log)|
      ensures Kept(old(db.operations), old(db.Now())) && Looks(log) <= 10
      ensures if r.Pass? then databaseStored && Clean(faults, Progress(), log, 30) else Stopped(faults, Progress(), log)
      ensures Calm() ==> Has(log, StoringReached)
    {
      hide Clean, Stopped, Has, OnlyTouches, HasRows, Fine, Looks, PLAN;
      StoringPlaces();
      NothingTouched(db.Now(), account);
      r := Go(Emit, 21);
      if r.Throw? { return; }
      r := StoreRegistration();
      if r.Throw? { return; }
      databaseStored := true;
      r := EnterSession();
    }

    /** What holds of the stores while and after the try block runs, begun on stores `start` with `n` requests
        made: the flag says stored only after every write; rows are there although it does not exactly when
        the storing code was reached and its first put did not fail. */
    ghost predicate Kept(n: nat, start: Stores)
      reads this, db
    {
      && OnlyTouches(start, db.Now(), account)
      && (databaseStored ==> Stored() && Fine(db.faults, n, STORE_REQUESTS))
      && (!databaseStored ==> Written(Begun(n), start, db.Now(), account))
      && (Has(log, StoreEmitFailed) ==> !databaseStored && Stored() && Fine(db.faults, n, STORE_REQUESTS))
    }

    method EnterSession() returns (r: Outcome)
      requires Clean(faults, Progress(), log, 26) && Progress() == Flags(true, true, true, true) && Looks(log) <= 10
      modifies this`log
      ensures |log| > |old(log)|
      ensures if r.Pass? then Clean(faults, Progress(), log, 30) else Stopped(faults, Progress(), log)
      ensures !Has(log, StoreEmitFailed) && Has(log, StoringReached) && Looks(log) <= 10
    {
      hide Clean, Stopped, Has, Looks, PLAN;
      StoringPlaces();
      :- Go(Emit, 26);
      :- Go(Unlock, 27);
      :- Go(Emit, 28);
      :- Go(AfterCall, 29);
      CleanParts(faults, Progress(), log, 30);
      return Pass;
    }

    method TryRegister() returns (r: Outcome)
      requires !db.isValid("") && Clean(faults, Progress(), log, 1) && Progress() == NOTHING_DONE && Looks(log) == 0
      modifies this`log, this`accountCreated, this`deleteCaptured, this`contractRegistered, this`databaseStored, db
      ensures |log| > |old(log)|
      ensures Kept(old(db.operations), old(db.Now())) && Looks(log) <= 10
      ensures if r.Pass? then databaseStored && Clean(faults, Progress(), log, 30) else Stopped(faults, Progress(), log)
      ensures Calm() ==> Has(log, StoringReached)
    {
      hide Clean, Stopped, Has, OnlyTouches, HasRows, Fine, Looks;
      NothingTouched(db.Now(), account);
      r := Begin();
      if r.Throw? { return; }
      r := PerformCeremony();
      if r.Throw? { return; }
      r := DeriveKeys();
      if r.Throw? { return; }
      r := CreateTheAccount();
      if r.Throw? { return; }
      r := RegisterOnChain();
      if r.Throw? { return; }
      r := StoreAndUnlock();
    }

    /** A step of the compensation or of the report after it; `base` is the log when the compensation began. */
    method Do(step: Step, ghost base: seq<Entry>) returns (r: Outcome)
      requires step in {Emit, SendDelete, OnError, AfterCall} && Follows(base, log)
      requires Sound(faults, Progress(), log)
      modifies this`log
      ensures Follows(base, log) && Sound(faults, Progress(), log)
      ensures log == old(log) + [Entry(step, r.Pass?, Progress())]
      ensures Steps(log[|base|..]) == Steps(old(log)[|base|..]) + [step]
      ensures Compensations(log) == Compensations(old(log)) + (if step == SendDelete then [step] else [])
      ensures Has(log, RolledBackOk) <==> Has(old(log), RolledBackOk)
      ensures HinderedSince(log, |base|) <==> HinderedSince(old(log), |base|) || (r.Throw? && step == Emit)
    {
      hide Sound, Compensations, Has, HinderedSince, Follows, Steps;
      r := if faults(|log|) then Throw else Pass;
      Add(step, r, base);
    }

    method Add(step: Step, r: Outcome, ghost base: seq<Entry>)
      requires step in {Emit, SendDelete, OnError, AfterCall, RollbackDb} && Follows(base, log)
      requires InDatabase(step) || (r.Pass? <==> !faults(|log|))
      requires Sound(faults, Progress(), log)
      modifies this`log
      ensures Follows(base, log) && Sound(faults, Progress(), log)
      ensures log == old(log) + [Entry(step, r.Pass?, Progress())]
      ensures Steps(log[|base|..]) == Steps(old(log)[|base|..]) + [step]
      ensures Compensations(log) == Compensations(old(log)) + (if step in {RollbackDb, SendDelete} then [step] else [])
      ensures Has(log, RolledBackOk) <==> Has(old(log), RolledBackOk) || (step == RollbackDb && r.Pass?)
      ensures HinderedSince(log, |base|) <==>
              HinderedSince(old(log), |base|) || (r.Throw? && step in {Emit, RollbackDb})
    {
      hide Sound, Compensations, Has, HinderedSince, Chained;
      var e := Entry(step, r.Pass?, Progress());
      SoundParts(faults, Progress(), log);
      SoundGrows(faults, Progress(), log, e);
      LogGrows(log, e);
      HinderedGrows(log, e, |base|);
      FollowsGrows(base, log, e);
      StepsGrow(log, e, |base|);
      log := log + [e];
    }

    /** The database part of the rollback. */
    method CompensateDatabase(ghost base: seq<Entry>) returns (r: Outcome)
      requires Sound(faults, Progress(), log) && Compensations(log) == [] && log == base && Follows(base, log)
      requires !Has(log, RolledBackOk)
      modifies this`log, db
      ensures |log| >= |base| && (r.Throw? ==> |log| > |base|)
      ensures Follows(base, log) && Sound(faults, Progress(), log)
      ensures r.Pass? ==> Steps(log[|base|..]) == if databaseStored then [Emit, RollbackDb] else []
      ensures Compensations(log) == [] || (databaseStored && Compensations(log) == [RollbackDb])
      ensures r.Pass? ==> Compensations(log) == if databaseStored then [RollbackDb] else []
      ensures r.Throw? ==> databaseStored && HinderedSince(log, |base|)
      ensures r.Pass? ==> db.Now() == if databaseStored then RolledBack(old(db.Now()), account) else old(db.Now())
      ensures Has(log, RolledBackOk) <==> databaseStored && r.Pass?
      ensures OnlyTouches(old(db.Now()), db.Now(), account)
      ensures NoFailedRollback(if r.Pass? then log else log[..|log| - 1], |base|)
    {
      hide Sound, Compensations, Has, HinderedSince, Follows, OnlyTouches, RolledBack, Steps;
      NothingTouched(db.Now(), account);
      NoSteps(base);
      if databaseStored {
        r := Do(Emit, base);
        if r.Throw? { return; }
        r := db.RollbackUserRegistration(account);
        Add(RollbackDb, r, base);
        assert [] + [RollbackDb] == [RollbackDb];
        return;
      }
      return Pass;
    }

    /** The account part: the deletion is sent once; an event that fails right after it is reported again. */
    method CompensateAccount(ghost base: seq<Entry>) returns (r: Outcome)
      requires Sound(faults, Progress(), log) && Follows(base, log)
      modifies this`log
      ensures Follows(base, log) && Sound(faults, Progress(), log)
      ensures Has(log, RolledBackOk) <==> Has(old(log), RolledBackOk)
      ensures !HinderedSince(log, |base|) ==>
                Steps(log[|base|..]) == Steps(old(log)[|base|..]) + AccountSteps(Progress())
      ensures Compensations(log) == Compensations(old(log)) + [SendDelete]
              || Compensations(log) == Compensations(old(log))
      ensures Compensations(log) != Compensations(old(log)) ==> accountCreated && deleteCaptured
      ensures r.Pass? && accountCreated && deleteCaptured ==>
                Compensations(log) == Compensations(old(log)) + [SendDelete]
      ensures r.Throw? ==> HinderedSince(log, |base|)
      ensures |log| >= |old(log)| && (r.Throw? ==> |log| > |old(log)|)
      ensures NoFailedRollback(old(log), |base|) ==> NoFailedRollback(log, |base|)
    {
      hide Sound, Compensations, Has, HinderedSince, Follows, Steps;
      if !accountCreated { return Pass; }
      :- Do(Emit, base);
      if !deleteCaptured {
        r := Do(Emit, base);
        return;
      }
      r := Do(SendDelete, base);
      if r.Pass? { r := Do(Emit, base); }
      if r.Throw? { r := Do(Emit, base); }
    }

    /** The try block of the rollback: the database first, then the account. */
    method Compensate() returns (r: Outcome)
      requires Sound(faults, Progress(), log) && Compensations(log) == [] && !Has(log, RolledBackOk)
      modifies this`log, db
      ensures Follows(old(log), log) && Sound(faults, Progress(), log) && Compensations(log) <= Due(Progress())
      ensures !HinderedSince(log, |old(log)|) ==> Steps(log[|old(log)|..]) == RollbackSteps(Progress())
      ensures r.Pass? ==> Compensations(log) == Due(Progress())
      ensures r.Throw? ==> HinderedSince(log, |old(log)|)
      ensures !databaseStored ==> db.Now() == old(db.Now())
      ensures OnlyTouches(old(db.Now()), db.Now(), account)
      ensures Has(log, RolledBackOk) ==> databaseStored && db.Now() == RolledBack(old(db.Now()), account)
      ensures databaseStored && (r.Pass? || SendDelete in Compensations(log)) ==> Has(log, RolledBackOk)
      ensures r.Throw? ==> |log| > |old(log)|
      ensures NoFailedRollback(if r.Pass? then log else log[..|log| - 1], |old(log)|)
    {
      hide Sound, Compensations, Has, HinderedSince, Follows, OnlyTouches, RolledBack, Steps;
      ghost var base := log;
      FollowsItself(base);
      r := CompensateDatabase(base);
      if r.Throw? { return; }
      :- CompensateAccount(base);
      if contractRegistered {
        :- Do(Emit, base);
      }
      return Pass;
    }

    /** performRegistrationRollback: a failure inside is reported, not retried. */
    method Rollback() returns (r: Outcome)
      requires Sound(faults, Progress(), log) && Compensations(log) == [] && !Has(log, RolledBackOk)
      modifies this`log, db
      ensures Follows(old(log), log) && Sound(faults, Progress(), log) && Compensations(log) <= Due(Progress())
      ensures !HinderedSince(log, |old(log)|) ==> Steps(log[|old(log)|..]) == RollbackSteps(Progress())
      ensures Compensations(log) == Due(Progress()) || HinderedSince(log, |old(log)|)
      ensures !databaseStored ==> db.Now() == old(db.Now())
      ensures OnlyTouches(old(db.Now()), db.Now(), account)
      ensures Has(log, RolledBackOk) ==> databaseStored && db.Now() == RolledBack(old(db.Now()), account)
      ensures databaseStored && SendDelete in Compensations(log) ==> Has(log, RolledBackOk)
      ensures OneEventAfterFailedRollback(log, |old(log)|) && (r.Throw? ==> EndsInFailedEvent(log))
    {
      hide Sound, Compensations, Has, HinderedSince, Follows, OnlyTouches, RolledBack, Steps;
      ghost var base := log;
      r := Compensate();
      if r.Throw? {
        r := Do(Emit, base);
      }
    }

    /** The catch block after the rollback, which has left the log at `done`. */
    method ReportFailure(ghost base: seq<Entry>) returns (r: Result, ghost done: seq<Entry>)
      requires Sound(faults, Progress(), log) && Follows(base, log)
      modifies this`log
      ensures Follows(base, log) && Sound(faults, Progress(), log)
      ensures Compensations(log) == Compensations(old(log))
      ensures Has(log, RolledBackOk) <==> Has(old(log), RolledBackOk)
      ensures done == old(log) && |done| < |log| && log[..|done|] == done
      ensures Reported(log[|done|..], r)
    {
      hide Sound, Compensations, Has, HinderedSince, Follows, Steps;
      r, done := Rejected, log;
      var outcome := Do(OnError, base);
      ReportIs(log[|done|..], [OnError]);
      if outcome.Throw? { return; }
      outcome := Do(Emit, base);
      ReportIs(log[|done|..], [OnError, Emit]);
      if outcome.Throw? { return; }
      outcome := Do(AfterCall, base);
      ReportIs(log[|done|..], [OnError, Emit, AfterCall]);
      if outcome.Throw? { return; }
      r := Failed;
    }

    /** The first event, before the try block. */
    method Announce() returns (r: Outcome)
      requires log == [] && Progress() == NOTHING_DONE
      modifies this`log
      ensures |log| == 1 && !Has(log, StoringReached)
      ensures if r.Pass? then Clean(faults, NOTHING_DONE, log, 1) && Looks(log) == 0
              else StoppedAt(faults, NOTHING_DONE, log, 0)
      ensures r.Throw? ==> Recovered(log, 1, 1, NOTHING_DONE, Rejected)
      ensures Calm() ==> r.Pass?
    {
      hide Clean, Looks, PLAN, Stopped, Has, Recovered;
      NothingLogged(faults);
      BeginPlaces();
      r := Go(Emit, 0);
      if r.Throw? {
        StoppedParts(faults, NOTHING_DONE, log);
        NothingToRecover(log);
      } else {
        CleanParts(faults, NOTHING_DONE, log, 1);
      }
    }

    /** The catch block, for a try block broken off: the rollback up to entry `till`, then the report. */
    method RecoverAndReport() returns (r: Result, ghost till: nat)
      requires Stopped(faults, Progress(), log)
      modifies this`log, db
      ensures Follows(old(log), log) && Sound(faults, Progress(), log)
      ensures Recovered(log, |old(log)|, till, Progress(), r)
      ensures OnlyTouches(old(db.Now()), db.Now(), account)
      ensures !databaseStored ==> db.Now() == old(db.Now())
      ensures Has(log, RolledBackOk) ==> databaseStored && NoRows(db.Now(), account)
      ensures databaseStored && SendDelete in Compensations(log) ==> Has(log, RolledBackOk)
    {
      hide Sound, Stopped, Compensations, Has, HinderedSince, OnlyTouches, RolledBack, NoRows, Due, BrokenOff, Follows,
        KeepsPlan, Steps, RollbackSteps, Reported, Persevered;
      StoppedParts(faults, Progress(), log);
      ghost var base, mid := log, db.Now();
      assert base[..|base|] == base;
      r := Rejected;
      var outcome := Rollback();
      FollowsParts(base, log);
      RolledBackHasNoRows(mid, account);
      till := |log|;
      assert log[..till] == log;
      if outcome.Pass? {
        ghost var done;
        r, done := ReportFailure(base);
        FollowsParts(base, log);
      }
    }

    /** The whole call, for every pattern of failures.

        - The entries keep to the plan, one after the other, up to entry `from`; the call succeeds exactly when
          every step of the plan has, and otherwise entry `from` - 1 is the first of them to fail, the access key
          being looked for up to ten times.
        - At every step each flag told whether its step had succeeded; stored implied registered, and registered
          implied created and deletable.
        - The compensations are a prefix of those due: the database before the account, each at most once. They
          run between entry `from` and entry `till`, where the report begins if the rollback did not throw, and
          the rollback goes through all its steps unless an event or the database rollback fails in between.
          Success comes with none.
        - After a database rollback no row of the account is left, and the account's deletion is sent only then.
        - While the database does not count as stored its rows are never rolled back; and then there is a user
          row of a new account exactly when the storing code was reached, the account id is valid, and the
          first put, the request with number `operations`, does not fail. */
    method RegisterPasskey() returns (r: Result, ghost from: nat, ghost till: nat)
      requires log == [] && Progress() == NOTHING_DONE && !db.isValid("")
      modifies this, db
      ensures from <= |log| && KeepsPlan(log[..from]) && Looks(log[..from]) <= 10
      ensures r == Registered <==> Done(log[..from]) == PLAN
      ensures r == Registered ==> from == |log| && OnlyLooksFailed(log)
      ensures r != Registered ==> BrokenOff(log[..from]) && Persevered(log[..from])
      ensures Sound(faults, Progress(), log)
      ensures r == Registered ==> Compensations(log) == [] && databaseStored && Stored()
      ensures r != Registered ==> Recovered(log, from, till, Progress(), r) && (from == 1 ==> |log| == 1)
      ensures Compensations(log) <= Due(Progress())
      ensures r != Registered && !HinderedSince(log[..till], from) ==>
                Compensations(log) == (if databaseStored then [RollbackDb] else [])
                + (if deleteCaptured then [SendDelete] else [])
      ensures OnlyTouches(old(db.Now()), db.Now(), account)
      ensures Has(log, RolledBackOk) ==> databaseStored && NoRows(db.Now(), account)
      ensures SendDelete in Compensations(log) && databaseStored ==> NoRows(db.Now(), account)
      ensures Has(log, StoreEmitFailed) ==>
                && r != Registered && !databaseStored && RollbackDb !in Compensations(log)
                && Stored() && Fine(db.faults, old(db.operations), STORE_REQUESTS)
      ensures databaseStored ==> Fine(db.faults, old(db.operations), STORE_REQUESTS)
      ensures !databaseStored ==>
                && RollbackDb !in Compensations(log)
                && Written(Begun(old(db.operations)), old(db.Now()), db.Now(), account)
                && (account !in old(db.users) ==> (db.Now() != old(db.Now()) <==> Begun(old(db.operations))))
      ensures Calm() ==> Has(log, StoringReached)
    {
      hide Sound, Clean, Stopped, Compensations, Has, HinderedSince, OnlyTouches, RolledBack, HasRows, NoRows, Due,
        BrokenOff, OnlyLooksFailed, Follows, Fine, Looks, Done, KeepsPlan, Steps, PLAN, AllChained, Tells, AllTold,
        Persevered, Recovered;
      ghost var start, n := db.Now(), db.operations;
      NothingTouched(start, account);
      NothingIsPrefix(Due(Progress()));
      var outcome := Announce();
      from, till := |log|, |log|;
      assert log[..from] == log;
      if outcome.Throw? {
        EndsBroken(faults, Progress(), log);
        return Rejected, from, till;
      }
      outcome := TryRegister();
      from, till := |log|, |log|;
      assert log[..from] == log;
      if outcome.Pass? {
        EndsComplete(faults, Progress(), log);
        NothingIsPrefix(Due(Progress()));
        return Registered, from, till;
      }
      EndsBroken(faults, Progress(), log);
      ghost var base, mid := log, db.Now();
      r, till := RecoverAndReport();
      FollowsParts(base, log);
      OnlyTouchesChains(start, mid, db.Now(), account);
      RecoveredParts(log, from, till, Progress(), r);
      SoundParts(faults, Progress(), log);
      DueByDeletion(Progress());
    }

  }

  lemma FollowsItself(log: seq<Entry>)
    ensures Follows(log, log)
  {}

  lemma FollowsParts(base: seq<Entry>, log: seq<Entry>)
    requires Follows(base, log)
    ensures |base| <= |log| && log[..|base|] == base
    ensures Has(log, StoringReached) <==> Has(base, StoringReached)
    ensures Has(log, StoreEmitFailed) <==> Has(base, StoreEmitFailed)
  {}

  // ---------- an input that shows it ----------

  /** Only the fourth request fails, the read inside storing the WebAuthn data: the call ends without a
      database rollback, and the rows written before stay. */
  method LaterFailureLeavesRows(account: Account, credential: string, defaults: Row, userData: Row, passkey: Row)
    returns (r: Result, stores: Stores, log: seq<Entry>)
    requires account != ""
    ensures r != Registered && account in stores.users
    ensures RollbackDb !in Compensations(log) && !Has(log, StoreEmitFailed)
  {
    var db := new Database(n => n == 3, a => a != "");
    var attempt := new Attempt(account, credential, defaults, userData, passkey, db, _ => false);
    ghost var from, till;
    r, from, till := attempt.RegisterPasskey();
    stores, log := db.Now(), attempt.log;
    assert attempt.Calm();
    FourthFails(db.faults);
  }

  lemma FourthFails(faults: nat -> bool)
    requires faults(3)
    ensures !Fine(faults, 0, STORE_REQUESTS)
  {}
}
