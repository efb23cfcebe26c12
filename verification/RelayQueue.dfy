/** The relay server's transaction queue: each operation is chained onto the promise of the one before. */
module RelayQueue {
  import opened Common

  /** Waiting for its predecessor, running, finished, or passed over because its predecessor rejected. */
  datatype Job = Waiting | Running | Done(result: Result<string, string>) | Skipped(error: string)

  datatype Stats = Stats(pending: int, completed: int, failed: int)

  datatype State = State(jobs: seq<Job>, stats: Stats)

  datatype Event = Submit | Begin(i: nat) | Finish(i: nat, result: Result<string, string>) | PassOver(i: nat)

  /** The outcome of the promise the caller of job `i` holds; None while it is unsettled. */
  function PromiseOf(job: Job): Option<Result<string, string>> {
    match job
    case Done(r) => Some(r)
    case Skipped(e) => Some(Err(e))
    case _ => None
  }

  /** The promise job `i` is chained onto; the queue starts with a resolved one. */
  function Predecessor(s: State, i: nat): Option<Result<string, string>>
    requires i <= |s.jobs|
  {
    if i == 0 then Some(Ok("")) else PromiseOf(s.jobs[i - 1])
  }

  predicate MayBegin(s: State, i: nat) {
    i < |s.jobs| && s.jobs[i].Waiting? && Predecessor(s, i).Some? && Predecessor(s, i).value.Ok?
  }

  predicate MayPassOver(s: State, i: nat) {
    i < |s.jobs| && s.jobs[i].Waiting? && Predecessor(s, i).Some? && Predecessor(s, i).value.Err?
  }

  predicate IsRunning(s: State, i: nat) {
    i < |s.jobs| && s.jobs[i].Running?
  }

  /** An event that is not due changes nothing. */
  function Step(s: State, e: Event): State {
    match e
    case Submit => State(s.jobs + [Waiting], s.stats.(pending := s.stats.pending + 1))
    case Begin(i) => if MayBegin(s, i) then s.(jobs := s.jobs[i := Running]) else s
    case Finish(i, r) =>
      if !IsRunning(s, i) then s
      else
        var settled := s.stats.(pending := s.stats.pending - 1);
        State(s.jobs[i := Done(r)],
              if r.Ok? then settled.(completed := settled.completed + 1) else settled.(failed := settled.failed + 1))
    case PassOver(i) =>
      if MayPassOver(s, i) then s.(jobs := s.jobs[i := Skipped(Predecessor(s, i).value.error)]) else s
  }

  const EMPTY := State([], Stats(0, 0, 0))

  class AccountService {
    var jobs: seq<Job>
    var queueStats: Stats

    function Now(): State
      reads this
    {
      State(jobs, queueStats)
    }

    constructor ()
      ensures Now() == EMPTY
    {
      jobs := [];
      queueStats := Stats(0, 0, 0);
    }

    /** queueTransaction: counts the operation and chains it onto the last promise. */
    method QueueTransaction() returns (i: nat)
      modifies this
      ensures i == |old(jobs)| && Now() == Step(old(Now()), Submit)
    {
      queueStats := queueStats.(pending := queueStats.pending + 1);
      i := |jobs|;
      jobs := jobs + [Waiting];
    }

    /** The reaction of job `i` once the promise it is chained onto has settled: the handler runs the operation
        when that promise was fulfilled; when it was rejected only the rethrowing catch runs. */
    method React(i: nat)
      requires i < |jobs| && jobs[i].Waiting? && Predecessor(Now(), i).Some?
      modifies this`jobs
      ensures Now() == Step(old(Now()), if Predecessor(old(Now()), i).value.Ok? then Begin(i) else PassOver(i))
    {
      var before := if i == 0 then Some(Ok("")) else PromiseOf(jobs[i - 1]);
      match before.value {
        case Ok(_) => jobs := jobs[i := Running];
        case Err(error) => jobs := jobs[i := Skipped(error)];
      }
    }

    /** The operation of job `i` settles. */
    method Settle(i: nat, result: Result<string, string>)
      requires i < |jobs| && jobs[i].Running?
      modifies this
      ensures Now() == Step(old(Now()), Finish(i, result))
    {
      if result.Ok? {
        queueStats := queueStats.(completed := queueStats.completed + 1);
        queueStats := queueStats.(pending := queueStats.pending - 1);
      } else {
        queueStats := queueStats.(failed := queueStats.failed + 1);
        queueStats := queueStats.(pending := queueStats.pending - 1);
      }
      jobs := jobs[i := Done(result)];
    }
  }

  // ---------- every interleaving ----------

  function Run(es: seq<Event>): State {
    if es == [] then EMPTY else Step(Run(es[..|es| - 1]), es[|es| - 1])
  }

  /** How many operations were submitted. */
  function Submitted(es: seq<Event>): nat {
    if es == [] then 0 else Submitted(es[..|es| - 1]) + (if es[|es| - 1].Submit? then 1 else 0)
  }

  predicate Succeeded(job: Job) { job.Done? && job.result.Ok? }

  predicate Failed(job: Job) { job.Done? && job.result.Err? }

  /** The first `k` jobs succeeded in order; job `k` is next. Behind it nothing has happened, unless job `k`
      rejected: then the first `m` jobs have settled, those after `k` passed over with its error. */
  ghost predicate Front(s: State, k: nat, m: nat) {
    && k <= m <= |s.jobs|
    && (forall i :: 0 <= i < k ==> Succeeded(s.jobs[i]))
    && (if k < |s.jobs| && Failed(s.jobs[k])
        then k < m && forall i :: k < i < |s.jobs| ==>
                                    s.jobs[i] == if i < m then Skipped(s.jobs[k].result.error) else Waiting
        else k == m && (k < |s.jobs| ==> s.jobs[k] in {Waiting, Running})
             && forall i :: k < i < |s.jobs| ==> s.jobs[i] == Waiting)
    && s.stats.completed == k
    && s.stats.failed == (if k < |s.jobs| && Failed(s.jobs[k]) then 1 else 0)
    && s.stats.pending == |s.jobs| - s.stats.completed - s.stats.failed
  }

  lemma FrontMoves(s: State, e: Event, k: nat, m: nat) returns (k': nat, m': nat)
    requires Front(s, k, m)
    ensures Front(Step(s, e), k', m') && k <= k'
    ensures |Step(s, e).jobs| == |s.jobs| + (if e.Submit? then 1 else 0)
  {
    k', m' := k, m;
    match e
    case Submit =>
    case Begin(i) =>
      if MayBegin(s, i) {
        assert i == k;
      }
    case Finish(i, r) =>
      if IsRunning(s, i) {
        assert i == k;
        k', m' := if r.Ok? then k + 1 else k, k + 1;
      }
    case PassOver(i) =>
      if MayPassOver(s, i) {
        assert i == m;
        m' := m + 1;
      }
  }

  /** Over every interleaving of submissions, starts and outcomes: operations run one at a time and in
      submission order, and every one submitted is counted as pending, completed or failed. */
  lemma {:induction false} OneAtATimeInOrder(es: seq<Event>) returns (k: nat, m: nat)
    ensures Front(Run(es), k, m) && |Run(es).jobs| == Submitted(es)
    ensures Run(es).stats.pending + Run(es).stats.completed + Run(es).stats.failed == Submitted(es)
    ensures forall i, j :: 0 <= i < j < |Run(es).jobs| && !Run(es).jobs[j].Waiting? ==>
                             Succeeded(Run(es).jobs[i])
                             || (PromiseOf(Run(es).jobs[i]).Some? && Run(es).jobs[j].Skipped?)
    ensures forall i, j :: 0 <= i < j < |Run(es).jobs| ==> !(Run(es).jobs[i].Running? && Run(es).jobs[j].Running?)
  {
    hide Step;
    if es == [] {
      k, m := 0, 0;
    } else {
      k, m := OneAtATimeInOrder(es[..|es| - 1]);
      k, m := FrontMoves(Run(es[..|es| - 1]), es[|es| - 1], k, m);
    }
  }

  /** Nothing is stuck for want of scheduling: as long as some job is unsettled, one is running or a reaction
      is due. */
  lemma AlwaysSomethingDue(es: seq<Event>)
    requires exists i :: 0 <= i < |Run(es).jobs| && PromiseOf(Run(es).jobs[i]).None?
    ensures exists i: nat :: IsRunning(Run(es), i) || MayBegin(Run(es), i) || MayPassOver(Run(es), i)
  {
    hide Run;
    var k, m := OneAtATimeInOrder(es);
    var s := Run(es);
    assert IsRunning(s, k) || MayBegin(s, k) || MayPassOver(s, m);
  }

  /** There is never a choice: at most one job is running or may react. */
  lemma NeverAChoice(es: seq<Event>, i: nat, j: nat)
    requires IsRunning(Run(es), i) || MayBegin(Run(es), i) || MayPassOver(Run(es), i)
    requires IsRunning(Run(es), j) || MayBegin(Run(es), j) || MayPassOver(Run(es), j)
    ensures i == j
  {
    hide Run;
    var k, m := OneAtATimeInOrder(es);
  }

  /** Each caller gets its own result: a fulfilled promise, or a rejection that is not handed down, is what
      that very operation ended with. */
  lemma {:induction false} OwnResult(es: seq<Event>, i: nat)
    requires i < |Run(es).jobs| && Run(es).jobs[i].Done?
    ensures exists j :: 0 <= j < |es| && es[j] == Finish(i, Run(es).jobs[i].result)
  {
    var prev, last := es[..|es| - 1], es[|es| - 1];
    if i < |Run(prev).jobs| && Run(prev).jobs[i].Done? {
      OwnResult(prev, i);
      var j :| 0 <= j < |prev| && prev[j] == Finish(i, Run(prev).jobs[i].result);
      assert es[j] == prev[j];
    } else {
      assert last == Finish(i, Run(es).jobs[i].result);
    }
  }

  lemma SettledStaysSettled(s: State, e: Event, i: nat)
    requires i < |s.jobs| && PromiseOf(s.jobs[i]).Some?
    ensures i < |Step(s, e).jobs| && Step(s, e).jobs[i] == s.jobs[i]
  {}

  /** The comment on the rethrowing catch says the queue continues after a failure. It does exactly as long
      as there is none: once a job has rejected, no later one ever runs, whatever happens, each can only get
      that same error, and all of them stay counted as pending. */
  lemma {:induction false} NothingRunsAfterRejection(es: seq<Event>, more: seq<Event>, k: nat)
    requires k < |Run(es).jobs| && Failed(Run(es).jobs[k])
    ensures var s := Run(es + more);
            && k < |s.jobs| && s.jobs[k] == Run(es).jobs[k]
            && (forall i :: k < i < |s.jobs| ==> s.jobs[i] in {Waiting, Skipped(s.jobs[k].result.error)})
            && (forall i: nat :: !MayBegin(s, i) && !IsRunning(s, i))
            && s.stats.pending == |s.jobs| - k - 1 && s.stats.completed == k && s.stats.failed == 1
    decreases |more|
  {
    hide Step;
    if more == [] {
      assert es + [] == es;
    } else {
      var front, last := more[..|more| - 1], more[|more| - 1];
      NothingRunsAfterRejection(es, front, k);
      assert (es + more)[..|es + more| - 1] == es + front;
      SettledStaysSettled(Run(es + front), last, k);
    }
    var f, m := OneAtATimeInOrder(es + more);
    assert f == k;
  }

  /** While none rejects, every settled job ran and none was passed over. */
  lemma NoneSkippedWithoutRejection(es: seq<Event>)
    requires forall i :: 0 <= i < |Run(es).jobs| ==> !Failed(Run(es).jobs[i])
    ensures forall i :: 0 <= i < |Run(es).jobs| ==> !Run(es).jobs[i].Skipped? && !MayPassOver(Run(es), i)
    ensures Run(es).stats.failed == 0
  {
    var k, m := OneAtATimeInOrder(es);
  }

  // ---------- the operation createAccount queues ----------

  /** The caller's event emitter: absent, or one that throws on some of its calls. */
  datatype Emitter = Silent | Emitter(throws: nat -> bool)

  predicate EmitFails(onEvent: Emitter, call: nat) {
    onEvent.Emitter? && onEvent.throws(call)
  }

  datatype Phase = UserReady | KeyAddition | KeyAdded | AccountVerified | Complete | ErrorEvent

  /** The phases reported on the way to success, in order. */
  const PHASES := [UserReady, KeyAddition, KeyAdded, AccountVerified, Complete]

  datatype Creation = Created(hash: string) | NotCreated

  /** The request can be executed at all: a valid account id, parsable amounts and key, and a node that
      executes the transaction with this hash. */
  datatype Request = Request(validId: bool, parses: bool, executed: Option<string>)

  predicate Executable(r: Request) {
    r.validId && r.parses && r.executed.Some?
  }

  /** None of the calls in [from, to) throws. */
  predicate Quiet(onEvent: Emitter, from: nat, to: nat) {
    onEvent.Silent? || forall k :: from <= k < to ==> !onEvent.throws(k)
  }

  /** How many calls of the emitter the try block makes for this request if none of them throws. */
  function Reach(request: Request): nat {
    if !request.validId then 1 else if !request.parses || request.executed.None? then 2 else 5
  }

  /** The first of the `left` calls from `from` on that throws, or the end of them. */
  function FirstThrow(onEvent: Emitter, from: nat, left: nat): (k: nat)
    ensures from <= k <= from + left && Quiet(onEvent, from, k) && (k < from + left ==> EmitFails(onEvent, k))
    decreases left
  {
    if left == 0 || EmitFails(onEvent, from) then from else FirstThrow(onEvent, from + 1, left - 1)
  }

  /** How many calls the try block makes before it ends: up to and including the first that throws. So the call
      that reports its failure has this number. */
  function CallsMade(onEvent: Emitter, request: Request): nat {
    var k := FirstThrow(onEvent, 0, Reach(request));
    if k < Reach(request) then k + 1 else k
  }

  /** The try block: `events` are the calls made to the emitter, `onChain` tells whether the account exists. */
  method TryCreate(onEvent: Emitter, request: Request)
    returns (hash: Option<string>, events: seq<Phase>, onChain: bool)
    ensures events <= PHASES && |events| >= 1
    ensures onChain <==> Executable(request) && Quiet(onEvent, 0, 2)
    ensures hash.Some? <==> Executable(request) && Quiet(onEvent, 0, 5)
    ensures hash.Some? ==> hash == request.executed && events == PHASES
    ensures hash.None? && !Executable(request) && Quiet(onEvent, 0, 2) ==> |events| <= 2
    ensures Quiet(onEvent, 0, |events| - 1)
    ensures |events| == CallsMade(onEvent, request)
  {
    hide FirstThrow;
    ghost var k := FirstThrow(onEvent, 0, Reach(request));
    hash, events, onChain := None, [UserReady], false;
    if EmitFails(onEvent, 0) || !request.validId { return; }
    events := events + [KeyAddition];
    if EmitFails(onEvent, 1) || !request.parses || request.executed.None? { return; }
    onChain := true;
    events := events + [KeyAdded];
    if EmitFails(onEvent, 2) { return; }
    events := events + [AccountVerified];
    if EmitFails(onEvent, 3) { return; }
    events := events + [Complete];
    if EmitFails(onEvent, 4) { return; }
    hash := request.executed;
  }

  /** The queued operation; None when it rejects and so blocks the queue for good. It rejects exactly when the
      try block failed and the emitter throws on the error event too, so never without an emitter. A caller
      can be told that nothing was created although the account exists: exactly when the transaction went
      through and a later event threw. */
  method CreateAccount(onEvent: Emitter, request: Request)
    returns (r: Option<Creation>, events: seq<Phase>, onChain: bool)
    ensures r.Some? && r.value.Created? <==> Executable(request) && Quiet(onEvent, 0, 5)
    ensures r.Some? && r.value.Created? ==> Some(r.value.hash) == request.executed && events == PHASES && onChain
    ensures r == Some(NotCreated) || r.None? ==> events != [] && Last(events, 1) == [ErrorEvent]
    ensures r.None? <==>
            !(Executable(request) && Quiet(onEvent, 0, 5)) && EmitFails(onEvent, CallsMade(onEvent, request))
    ensures events == if r.Some? && r.value.Created? then PHASES
                      else PHASES[..CallsMade(onEvent, request)] + [ErrorEvent]
    ensures onEvent.Silent? ==> r.Some?
    ensures Quiet(onEvent, 0, 5) ==>
              events == (if !request.validId then [UserReady, ErrorEvent]
                         else if !request.parses || request.executed.None? then [UserReady, KeyAddition, ErrorEvent]
                         else [UserReady, KeyAddition, KeyAdded, AccountVerified, Complete])
    ensures onChain && !(r.Some? && r.value.Created?) <==>
            Executable(request) && Quiet(onEvent, 0, 2) && !Quiet(onEvent, 2, 5)
  {
    hide FirstThrow;
    var hash: Option<string>;
    hash, events, onChain := TryCreate(onEvent, request);
    if hash.Some? { return Some(Created(hash.value)), events, onChain; }
    var call := |events|;
    events := events + [ErrorEvent];
    r := if EmitFails(onEvent, call) then None else Some(NotCreated);
  }
}
